/** The colour map: a tree of shared blocks that gives every character its colour, and the table of colours. */
module ColorMap {
  import opened ColorTree
  import opened ColorTable
  import opened ColorPartition
  import opened NfaGraph

  /** The solid blocks of the colours in use. */
  function Solid(cd: seq<Desc>, max: nat): (b: Blocks)
    ensures forall co: nat :: co in b <==> co < |cd| && InUse(cd, max, co) && cd[co].block >= 0
    ensures forall co :: co in b ==> b[co] == cd[co].block
  {
    map co: nat | co < |cd| && InUse(cd, max, co) && cd[co].block >= 0 :: cd[co].block as nat
  }

  ghost predicate BlocksOk(cd: seq<Desc>) {
    forall co: nat :: co < |cd| ==> cd[co].block >= NOBLOCK
  }

  /** Every character has a colour in the table. */
  ghost predicate Colored(t: Tree, cd: seq<Desc>, max: nat) {
    Closed(t) && forall c: nat :: c < SPELLED ==> Real(cd, max, Painting(t)[c])
  }

  /** A block that some slot below a block of its own holds is its first colour's solid block exactly if it is shared. */
  lemma SharedTest(t: Tree, cd: seq<Desc>, max: nat, home: Homes, n: Name, b: nat)
    requires WellMade(t, Solid(cd, max), home) && Colored(t, cd, max) && BlocksOk(cd)
    requires n in t.ptrs && n.level == NBYTS - 2 && n.no != 0 && b < BYTTAB
    ensures var k := t.ptrs[n][b];
            && k in t.colors && |t.colors[k]| == BYTTAB && t.colors[k][0] < |cd|
            && Real(cd, max, t.colors[k][0])
            && (k in Solid(cd, max).Values <==> k == 0 || k == cd[t.colors[k][0]].block)
            && (k in Solid(cd, max).Values ==> t.colors[k][0] in Solid(cd, max) && Solid(cd, max)[t.colors[k][0]] == k)
  {
    var k := t.ptrs[n][b];
    var solid := Solid(cd, max);
    var c := HeldColors(t, solid, home, n, b);
    assert Real(cd, max, Painting(t)[c]);
    assert Exists(t, NBYTS - 1, k);
    if k in solid.Values {
      var co :| co in solid && solid[co] == k;
      assert IsSolid(t, k, co);
    }
    if k == 0 {
      assert solid[WHITE] in solid.Values;
    }
  }

  lemma ColoredClosed(t: Tree, cd: seq<Desc>, max: nat)
    requires Colored(t, cd, max)
    ensures Closed(t)
  {
  }

  lemma OkClosed(t: Tree, made: nat, solid: Blocks, home: Homes)
    requires TreeOk(t, made, solid, home)
    ensures Closed(t)
  {
  }

  lemma ColoredKept(t: Tree, r: Tree, cd: seq<Desc>, max: nat)
    requires Colored(t, cd, max) && Closed(r) && Painting(r) == Painting(t)
    ensures Colored(r, cd, max)
  {
  }

  // ---------------------------------------------------------------- what table changes keep

  /** Colour co came into use, empty, and nothing else changed. */
  ghost predicate NewEntry(cd: seq<Desc>, max: nat, co: nat, ce: seq<Desc>, top: nat) {
    && |cd| <= |ce| && co < |ce| && !InUse(cd, max, co) && InUse(ce, top, co)
    && ce[co] == Desc(0, NOSUB, false, false, NOBLOCK)
    && (forall k: nat :: k < |cd| && k != co ==> ce[k] == cd[k])
    && (forall k: nat :: |cd| <= k < |ce| ==> ce[k].block == NOBLOCK)
    && (forall k: nat :: k != co ==> InUse(ce, top, k) == InUse(cd, max, k))
  }

  /** Nothing but counts and subcolours of colours in use changed. */
  ghost predicate SameBlocks(cd: seq<Desc>, ce: seq<Desc>) {
    |ce| == |cd| && forall k: nat :: k < |cd| ==> ce[k] == cd[k].(nchrs := ce[k].nchrs, sub := if cd[k].freed then cd[k].sub else ce[k].sub)
  }

  lemma SameBlocksFine(t: Tree, cd: seq<Desc>, max: nat, ce: seq<Desc>)
    requires SameBlocks(cd, ce) && Colored(t, cd, max) && BlocksOk(cd)
    ensures Solid(ce, max) == Solid(cd, max) && Colored(t, ce, max) && BlocksOk(ce)
    ensures forall co: nat :: InUse(ce, max, co) == InUse(cd, max, co)
  {
    SameUseFine(t, cd, max, ce, max);
  }

  /** Only links between free colours changed. */
  ghost predicate Relinked(cd: seq<Desc>, ce: seq<Desc>) {
    |ce| == |cd| && forall k: nat :: k < |cd| ==> ce[k] == cd[k].(sub := ce[k].sub) && (!cd[k].freed ==> ce[k] == cd[k])
  }

  /** The same colours are in use, with the same blocks. */
  ghost predicate SameUse(cd: seq<Desc>, max: nat, ce: seq<Desc>, top: nat) {
    && |ce| == |cd| && (forall co: nat :: InUse(ce, top, co) == InUse(cd, max, co))
    && (forall k: nat :: k < |cd| ==> ce[k].block == cd[k].block && ce[k].pseudo == cd[k].pseudo)
  }

  lemma SameUseFine(t: Tree, cd: seq<Desc>, max: nat, ce: seq<Desc>, top: nat)
    requires SameUse(cd, max, ce, top) && Colored(t, cd, max) && BlocksOk(cd)
    ensures Solid(ce, top) == Solid(cd, max) && Colored(t, ce, top) && BlocksOk(ce)
  {
  }

  lemma SameBlocksChain(cd: seq<Desc>, max: nat, free: int, chain: seq<nat>, ce: seq<Desc>)
    requires SameBlocks(cd, ce) && ChainOk(cd, max, free, chain)
    ensures ChainOk(ce, max, free, chain)
  {
    LinkedKept(cd, ce, free, chain);
  }

  lemma NewEntryFine(t: Tree, cd: seq<Desc>, max: nat, co: nat, ce: seq<Desc>, top: nat)
    requires NewEntry(cd, max, co, ce, top) && Colored(t, cd, max) && BlocksOk(cd)
    ensures Solid(ce, top) == Solid(cd, max) && Colored(t, ce, top) && BlocksOk(ce)
  {
  }

  /** The first free colour is in the chain, and the rest of the chain does without it. */
  lemma FirstLink(cd: seq<Desc>, max: nat, free: int, chain: seq<nat>)
    requires ChainOk(cd, max, free, chain) && free != 0
    ensures 0 < free <= max && chain != [] && chain[0] == free && cd[free].freed
    ensures Linked(cd, cd[free].sub, chain[1..]) && Distinct(chain[1..])
    ensures forall co: nat :: co in chain[1..] <==> co in chain && co != free
  {
    assert chain == [chain[0]] + chain[1..];
    assert chain[0] in chain;
  }

  lemma NotColored(t: Tree, cd: seq<Desc>, max: nat, co: nat)
    requires Colored(t, cd, max) && forall c: nat :: c < SPELLED ==> Painting(t)[c] != co
    ensures Closed(t) && forall c: nat :: c < SPELLED ==> ColorAt(t, c) != co
  {
    forall c: nat | c < SPELLED ensures ColorAt(t, c) != co {
      assert Painting(t)[c] != co;
    }
  }

  /** The table once a colour that no character has is marked free. */
  lemma FreedTable(t: Tree, cd: seq<Desc>, max: nat, co: nat)
    requires Colored(t, cd, max) && BlocksOk(cd) && InUse(cd, max, co) && co != WHITE
    requires forall c: nat :: c < SPELLED ==> Painting(t)[c] != co
    ensures var ce := cd[co := cd[co].(freed := true, pseudo := false, block := NOBLOCK)];
            && Solid(ce, max) == Solid(cd, max) - {co} && BlocksOk(ce) && Colored(t, ce, max)
            && (cd[co].block == NOBLOCK ==> Solid(ce, max) == Solid(cd, max))
            && (cd[co].block != NOBLOCK ==> co in Solid(cd, max) && Solid(cd, max)[co] == cd[co].block)
  {
  }

  lemma ChainLess(cd: seq<Desc>, max: nat, free: int, chain: seq<nat>, co: nat)
    requires ChainOk(cd, max, free, chain) && InUse(cd, max, co) && co != WHITE
    ensures var ce := cd[co := cd[co].(freed := true, pseudo := false, block := NOBLOCK)];
            && max < |ce| <= MAX_COLOR + 1 && Real(ce, max, WHITE) && Linked(ce, free, chain) && Distinct(chain)
            && forall k: nat :: k in chain <==> k <= max && ce[k].freed && k != co
  {
    LinkedKept(cd, cd[co := cd[co].(freed := true, pseudo := false, block := NOBLOCK)], free, chain);
  }

  /** The chain as it is cut down: kept has been looked at, as far as pco, and rest not. */
  ghost predicate Cutting(was: seq<Desc>, cd: seq<Desc>, max: nat, top: nat, free: int, kept: seq<nat>, rest: seq<nat>, pco: nat) {
    && Relinked(was, cd) && top < |cd|
    && Linked(cd, free, kept + rest) && Distinct(kept + rest) && kept != [] && pco == kept[|kept| - 1]
    && (forall k: nat :: k in kept ==> k <= max && k < |cd| && cd[k].freed)
    && (forall k: nat :: k in rest ==> k < top && cd[k].freed)
    && (forall k: nat :: k <= max && k < |cd| && cd[k].freed ==> k in kept || k in rest)
  }

  lemma CuttingStarts(cd: seq<Desc>, max: nat, top: nat, free: int, chain: seq<nat>)
    requires 0 < free <= max < top < |cd| && Linked(cd, free, chain) && Distinct(chain)
    requires forall k: nat :: k in chain ==> k < top && cd[k].freed
    requires forall k: nat :: k <= max && cd[k].freed ==> k in chain
    ensures chain != [] && chain[0] == free && Cutting(cd, cd, max, top, free, [chain[0]], chain[1..], chain[0])
  {
    ChainHead(cd, free, chain);
    assert [chain[0]] + chain[1..] == chain;
  }

  /** If there is a next colour in the chain, it is the first of the rest. */
  lemma CuttingRest(was: seq<Desc>, cd: seq<Desc>, max: nat, top: nat, free: int, kept: seq<nat>, rest: seq<nat>, pco: nat)
    requires Cutting(was, cd, max, top, free, kept, rest, pco)
    ensures pco < |cd| && cd[pco].sub >= 0 && (cd[pco].sub > 0 <==> rest != [])
    ensures rest != [] ==> cd[pco].sub == rest[0] < |cd|
  {
    ChainTail(cd, free, kept, rest);
  }

  lemma CuttingOut(was: seq<Desc>, cd: seq<Desc>, max: nat, top: nat, free: int, kept: seq<nat>, rest: seq<nat>, pco: nat)
    requires Cutting(was, cd, max, top, free, kept, rest, pco) && rest != [] && rest[0] > max
    ensures pco < |cd| && rest[0] < |cd|
    ensures Cutting(was, cd[pco := cd[pco].(sub := cd[rest[0]].sub)], max, top, free, kept, rest[1..], pco)
  {
    hide Linked, Distinct;
    ChainTail(cd, free, kept, rest);
    ChainCut(cd, free, kept, rest);
    FirstOrRest(rest);
    assert pco in kept;
  }

  lemma CuttingOn(was: seq<Desc>, cd: seq<Desc>, max: nat, top: nat, free: int, kept: seq<nat>, rest: seq<nat>, pco: nat)
    requires Cutting(was, cd, max, top, free, kept, rest, pco) && rest != [] && rest[0] <= max
    ensures Cutting(was, cd, max, top, free, kept + [rest[0]], rest[1..], rest[0])
  {
    hide Linked, Distinct;
    FirstOrRest(rest);
    assert kept + rest == (kept + [rest[0]]) + rest[1..];
    var more := kept + [rest[0]];
    assert rest[0] in rest;
    forall k: nat | k <= max && k < |cd| && cd[k].freed ensures k in more || k in rest[1..] {
      assert k in kept || k in rest;
      assert rest[0] == more[|kept|];
    }
    forall k: nat | k in more ensures k <= max && k < |cd| && cd[k].freed {
      assert k in kept || k == rest[0];
    }
  }

  lemma CuttingEnds(was: seq<Desc>, cd: seq<Desc>, max: nat, top: nat, free: int, kept: seq<nat>, rest: seq<nat>, pco: nat)
    requires Cutting(was, cd, max, top, free, kept, rest, pco) && max < |cd| && pco < |cd| && cd[pco].sub <= 0
    ensures Linked(cd, free, kept) && Distinct(kept) && Relinked(was, cd)
    ensures forall k: nat :: k in kept <==> k <= max && cd[k].freed
  {
    CuttingRest(was, cd, max, top, free, kept, rest, pco);
    assert kept + rest == kept;
  }

  lemma FirstOrRest(s: seq<nat>)
    requires s != []
    ensures forall x :: x in s <==> x == s[0] || x in s[1..]
  {
    assert s == [s[0]] + s[1..];
  }

  // ---------------------------------------------------------------- the map to start with

  const NINLINECDS: nat := 10

  function Fresh(): Tree {
    var zeros := seq(BYTTAB, _ => 0);
    Tree(map[Name(0, 0) := zeros, Name(1, 0) := zeros, Name(2, 0) := zeros], map[0 := zeros])
  }

  function FreshTable(): (cd: seq<Desc>)
    ensures |cd| == NINLINECDS && cd[WHITE] == Desc(NCHRS, NOSUB, false, false, 0)
  {
    [Desc(NCHRS, NOSUB, false, false, 0)] + seq(NINLINECDS - 1, _ => Desc(0, NOSUB, false, false, NOBLOCK))
  }

  lemma FreshFine()
    ensures TreeOk(Fresh(), 1, Solid(FreshTable(), WHITE), map[]) && BlocksOk(FreshTable())
    ensures Colored(Fresh(), FreshTable(), WHITE) && ChainOk(FreshTable(), WHITE, 0, [])
    ensures forall c :: 0 <= c < SPELLED ==> Painting(Fresh())[c] == WHITE
  {
    var t := Fresh();
    var solid := Solid(FreshTable(), WHITE);
    assert solid == map[WHITE := 0];
    assert IsSolid(t, 0, WHITE);
    assert solid[WHITE] in solid.Values;
    forall level: nat | level < NBYTS ensures Exists(t, level, 0) {}
    assert Closed(t) && FillsFilled(t) && SolidsSolid(t, solid);
    forall c | 0 <= c < SPELLED ensures Painting(t)[c] == WHITE {
      assert Exists(t, NBYTS - 1, Reach(t, NBYTS - 1, c / BYTTAB));
    }
  }

  lemma FreshSound()
    ensures var paint := Painting(Fresh());
            Closed(Fresh()) && Sound(Coloring(paint, FreshTable(), WHITE, {WHITE}, seq(SPELLED, _ => WHITE), {}))
  {
    FreshFine();
    var paint := Painting(Fresh());
    CountAll(paint[..NCHRS], WHITE);
    assert SubOk(FreshTable(), WHITE, {WHITE}, WHITE);
  }

  /** A colour just come into use has no characters, so it can be made a pseudocolour. */
  lemma PseudoFine(t: Tree, cd: seq<Desc>, max: nat, co: nat)
    requires Colored(t, cd, max) && BlocksOk(cd) && InUse(cd, max, co) && cd[co].block == NOBLOCK
    requires forall c :: 0 <= c < SPELLED ==> Painting(t)[c] != co
    ensures var ce := cd[co := cd[co].(nchrs := 1, pseudo := true)];
            Solid(ce, max) == Solid(cd, max) && Colored(t, ce, max) && BlocksOk(ce)
  {
  }

  lemma NotPainted(g: Coloring, co: nat)
    requires SubsOk(g.cd, g.max, g.full) && Grouped(g) && !InUse(g.cd, g.max, co)
    ensures forall c :: 0 <= c < SPELLED ==> g.paint[c] != co
  {
    forall c | 0 <= c < SPELLED ensures g.paint[c] != co {
      PaintReal(g, c);
    }
  }

  lemma PseudoSound(g: Coloring, co: nat, cd: seq<Desc>, max: nat)
    requires Sound(g) && NewEntry(g.cd, g.max, co, cd, max)
    ensures co != WHITE
    ensures forall c :: 0 <= c < SPELLED ==> g.paint[c] != co
    ensures Sound(g.(cd := cd[co := cd[co].(nchrs := 1, pseudo := true)], max := max, full := g.full + {co}))
  {
    hide Grouped, Counted, Touched, Peopled;
    NotPainted(g, co);
    var h := g.(cd := cd[co := cd[co].(nchrs := 1, pseudo := true)], max := max, full := g.full + {co});
    assert forall k: nat :: k != co ==> InUse(h.cd, h.max, k) == InUse(g.cd, g.max, k);
    assert forall k: nat :: k != co && InUse(g.cd, g.max, k) ==> h.cd[k] == g.cd[k];
    assert SubsOk(h.cd, h.max, h.full) by {
      forall k: nat | InUse(h.cd, h.max, k) ensures SubOk(h.cd, h.max, h.full, k) {
        if k != co {
          assert SubOk(g.cd, g.max, g.full, k);
          if k !in g.full {
            var p :| IsParent(g.cd, g.full, p, k);
            assert IsParent(h.cd, h.full, p, k);
          }
        }
      }
    }
    PseudoGrouped(g, co, h);
  }

  lemma PseudoGrouped(g: Coloring, co: nat, h: Coloring)
    requires Grouped(g) && Counted(g) && Touched(g, -1) && Peopled(g)
    requires h == g.(cd := h.cd, max := h.max, full := g.full + {co}) && co < |h.cd| && h.cd[co].sub == NOSUB && h.cd[co].pseudo
    requires !InUse(g.cd, g.max, co) && |g.cd| <= |h.cd|
    requires forall k :: k in g.full ==> InUse(g.cd, g.max, k)
    requires forall k: nat :: k != co ==> InUse(h.cd, h.max, k) == InUse(g.cd, g.max, k)
    requires forall k: nat :: k != co && InUse(g.cd, g.max, k) ==> h.cd[k] == g.cd[k]
    ensures Grouped(h) && Counted(h) && Touched(h, -1) && Peopled(h)
  {
    hide SubsOk, Counted, Touched, Peopled, Sound;
    PseudoTouched(g, co, h);
    PseudoCounted(g, co, h);
  }

  lemma PseudoCounted(g: Coloring, co: nat, h: Coloring)
    requires Counted(g) && h.paint == g.paint && co < |h.cd| && h.cd[co].pseudo
    requires forall k: nat :: k != co ==> InUse(h.cd, h.max, k) == InUse(g.cd, g.max, k)
    requires forall k: nat :: k != co && k < |h.cd| && InUse(g.cd, g.max, k) ==> h.cd[k] == g.cd[k]
    ensures Counted(h)
  {
  }

  lemma PseudoTouched(g: Coloring, co: nat, h: Coloring)
    requires Grouped(g) && Touched(g, -1) && Peopled(g) && Grouped(h) && !InUse(g.cd, g.max, co)
    requires h == g.(cd := h.cd, max := h.max, full := g.full + {co}) && co < |h.cd| && h.cd[co].sub == NOSUB && h.cd[co].pseudo
    requires forall k: nat :: k != co && k < |h.cd| && k in g.full ==> InUse(g.cd, g.max, k) && h.cd[k] == g.cd[k]
    ensures Touched(h, -1) && Peopled(h)
  {
    forall k | k in h.full && k < |h.cd| && h.cd[k].sub != NOSUB ensures SomeTaken(h, k) {
      assert SomeTaken(g, k);
      var c :| c in g.taken && g.was[c] == k;
      assert c in h.taken;
    }
    forall k | k in h.full && Real(h.cd, h.max, k) && k != WHITE ensures exists c: nat :: c < NCHRS && h.was[c] == k {
      assert k != co;
      var c: nat :| c < NCHRS && g.was[c] == k;
      assert h.was[c] == k;
    }
  }

  lemma PseudoChain(cd: seq<Desc>, max: nat, free: int, chain: seq<nat>, co: nat)
    requires ChainOk(cd, max, free, chain) && InUse(cd, max, co) && co != WHITE
    ensures ChainOk(cd[co := cd[co].(nchrs := 1, pseudo := true)], max, free, chain)
  {
    LinkedKept(cd, cd[co := cd[co].(nchrs := 1, pseudo := true)], free, chain);
  }

  class ColorMap {
    var tree: Tree
    /** One more than the highest block number given out. */
    var made: nat
    var cd: seq<Desc>
    var max: nat
    var free: int
    ghost var home: Homes
    ghost var chain: seq<nat>
    ghost var full: set<nat>
    ghost var was: seq<nat>
    ghost var taken: set<nat>

    ghost predicate TreeFine()
      reads this
    {
      TreeOk(tree, made, Solid(cd, max), home) && BlocksOk(cd) && Colored(tree, cd, max)
    }

    /** The colours of all the characters. */
    ghost function Paint(): (s: seq<nat>)
      reads this
      requires Closed(tree)
      ensures |s| == SPELLED
    {
      Painting(tree)
    }

    ghost function State(): Coloring
      reads this
      requires Closed(tree)
    {
      Coloring(Paint(), cd, max, full, was, taken)
    }

    ghost predicate Valid()
      reads this
    {
      TreeFine() && ChainOk(cd, max, free, chain) && Sound(State())
    }

    /** A new colour map: all white, and all fill blocks. */
    constructor ()
      ensures Valid() && full == {WHITE} && taken == {} && max == WHITE
      ensures forall c :: 0 <= c < SPELLED ==> Paint()[c] == WHITE
    {
      tree := Fresh();
      made, max, free := 1, 0, 0;
      cd := FreshTable();
      home, chain, full, taken := map[], [], {WHITE}, {};
      was := seq(SPELLED, _ => WHITE);
      new;
      FreshFine();
      FreshSound();
    }

    function GetColor(c: nat): (co: nat)
      requires Closed(tree) && c < SPELLED
      reads this
      ensures co == Paint()[c]
    {
      Down(tree, c, 0);
      Down(tree, c, 1);
      Down(tree, c, 2);
      var i := tree.ptrs[Name(0, 0)][Shifted(c, 3) % BYTTAB];
      var j := tree.ptrs[Name(1, i)][Shifted(c, 2) % BYTTAB];
      var k := tree.ptrs[Name(2, j)][Shifted(c, 1) % BYTTAB];
      tree.colors[k][c % BYTTAB]
    }

    // -------------------------------------------------------------- blocks

    /** Goes down through slot b of pointer block no at a level, making the block below one of its own if need be. */
    method OwnPtrs(level: nat, no: nat, b: nat) returns (t: nat)
      requires TreeFine() && level < NBYTS - 2 && Name(level, no) in tree.ptrs && (level > 0 ==> no != 0) && b < BYTTAB
      modifies this`tree, this`made, this`home
      ensures TreeFine() && Paint() == old(Paint())
      ensures Name(level, no) in tree.ptrs && tree.ptrs[Name(level, no)][b] == t && t != 0
      ensures forall p :: Reach(tree, level, p) == old(Reach(tree, level, p))
    {
      hide WellMade, Real, InUse;
      var n := Name(level, no);
      t := tree.ptrs[n][b];
      if t == 0 {
        OwnedPtrs(tree, made, Solid(cd, max), home, n, b);
        t := made;
        tree, home := CopyPtrs(tree, n, b, t), home[Name(level + 1, t) := (no, b)];
        made := made + 1;
      }
    }

    /** The last step down: a shared colour block is copied. */
    method OwnColors(level: nat, no: nat, b: nat) returns (t: nat)
      requires TreeFine() && level == NBYTS - 2 && Name(level, no) in tree.ptrs && no != 0 && b < BYTTAB
      modifies this`tree, this`made, this`home
      ensures TreeFine() && Paint() == old(Paint())
      ensures Name(level, no) in tree.ptrs && tree.ptrs[Name(level, no)][b] == t
      ensures t !in Solid(cd, max).Values
      ensures forall p :: Reach(tree, level, p) == old(Reach(tree, level, p))
    {
      hide WellMade, Real, InUse, Painting, Colored, Reach, CopyColors, BlocksOk;
      var n := Name(level, no);
      PartsOf(tree, Solid(cd, max), home);
      SharedTest(tree, cd, max, home, n, b);
      t := tree.ptrs[n][b];
      if t == 0 || t == cd[tree.colors[t][0]].block {
        OwnedColors(tree, made, Solid(cd, max), home, n, b);
        t := made;
        PartsOf(CopyColors(tree, n, b, t), Solid(cd, max), home[Name(level + 1, t) := (no, b)]);
        ColoredKept(tree, CopyColors(tree, n, b, t), cd, max);
        tree, home := CopyColors(tree, n, b, t), home[Name(level + 1, t) := (no, b)];
        made := made + 1;
      }
    }

    /** At a level, the way of character c leads to block t, which no other way leads to. */
    ghost predicate OnWay(c: nat, level: nat, t: nat)
      reads this
    {
      && Closed(tree) && level < NBYTS && t == Reach(tree, level, Shifted(c, NBYTS - level))
      && (0 < level < NBYTS - 1 ==> t != 0)
      && (level == NBYTS - 1 ==> t !in Solid(cd, max).Values)
    }

    /** One step down the way of character c, to a block of its own. */
    method OwnWay(c: nat, level: nat, t: nat) returns (u: nat)
      requires TreeFine() && level < NBYTS - 1 && OnWay(c, level, t)
      modifies this`tree, this`made, this`home
      ensures TreeFine() && Paint() == old(Paint()) && OnWay(c, level + 1, u)
    {
      hide WellMade, Real, InUse, Painting;
      var b := Shifted(c, NBYTS - 1 - level) % BYTTAB;
      if level == NBYTS - 2 {
        u := OwnColors(level, t, b);
      } else {
        u := OwnPtrs(level, t, b);
      }
      Down(tree, c, level);
    }

    /** Gives a character a colour. */
    method SetColor(c: nat, co: nat) returns (prev: nat)
      requires TreeFine() && c < SPELLED && Real(cd, max, co)
      modifies this`tree, this`made, this`home
      ensures TreeFine() && prev == old(Paint()[c]) && Paint() == Put(old(Paint()), c, co)
    {
      hide WellMade, Painting, Real, InUse, Reach;
      var t: nat, level: nat, k: nat := 0, 0, NBYTS - 1;
      ShiftedSpan(c, 0);
      TopReach(tree, c);
      while k > 0
        invariant level + k == NBYTS - 1 && TreeFine() && Paint() == old(Paint()) && OnWay(c, level, t)
      {
        t := OwnWay(c, level, t);
        level, k := level + 1, k - 1;
      }
      prev := PaintOne(c, t, co);
    }

    /** Writes the colour of a character in its block. */
    method PaintOne(c: nat, t: nat, co: nat) returns (prev: nat)
      requires TreeFine() && c < SPELLED && Real(cd, max, co) && OnWay(c, NBYTS - 1, t)
      modifies this`tree
      ensures TreeFine() && prev == old(Paint()[c]) && Paint() == Put(old(Paint()), c, co)
      ensures OnWay(c, NBYTS - 1, t)
      ensures t in tree.colors && t in old(tree.colors) && |old(tree.colors[t])| == BYTTAB
      ensures tree.colors[t] == Put(old(tree.colors[t]), c % BYTTAB, co)
    {
      hide WellMade, Real, InUse;
      OneShift(c);
      var b := c % BYTTAB;
      assert Exists(tree, NBYTS - 1, t);
      prev := tree.colors[t][b];
      PaintedOne(tree, made, Solid(cd, max), home, c, co, t);
      assert forall d: nat :: d < SPELLED && d != c ==> Put(Painting(tree), c, co)[d] == Painting(tree)[d];
      tree := ColorTree.Paint(tree, t, b, co);
    }

    // -------------------------------------------------------------- colours

    /** Finds a colour that is not in use; there is none exactly when all numbers are taken. */
    method NewColor() returns (co: int)
      requires TreeFine() && ChainOk(cd, max, free, chain)
      modifies this`cd, this`max, this`free, this`chain
      ensures co == COLORLESS <==> old(free == 0 && max == MAX_COLOR)
      ensures co == COLORLESS ==> cd == old(cd) && max == old(max) && free == old(free) && chain == old(chain)
      ensures co != COLORLESS ==> co >= 0 && NewEntry(old(cd), old(max), co, cd, max)
      ensures TreeFine() && ChainOk(cd, max, free, chain)
    {
      hide TreeOk, Colored, Linked, Distinct, Solid;
      ghost var was := cd;
      if free != 0 {
        co := free;
        FirstLink(cd, max, free, chain);
        free := cd[co].sub;
        chain := chain[1..];
      } else if max < |cd| - 1 {
        max := max + 1;
        co := max;
      } else {
        if max == MAX_COLOR {
          return COLORLESS;
        }
        var n := if 2 * |cd| > MAX_COLOR + 1 then MAX_COLOR + 1 else 2 * |cd|;
        cd := cd + seq(n - |cd|, _ => Desc(0, NOSUB, false, false, NOBLOCK));
        max := max + 1;
        co := max;
      }
      cd := cd[co := Desc(0, NOSUB, false, false, NOBLOCK)];
      LinkedKept(was, cd, free, chain);
      NewEntryFine(tree, was, old(max), co, cd, max);
    }

    /** All is in order, but the open subcolour of co may be empty. */
    ghost predicate Pending(co: nat)
      reads this
    {
      && TreeFine() && ChainOk(cd, max, free, chain) && SubsOk(cd, max, full)
      && Grouped(State()) && Counted(State()) && Touched(State(), co) && Peopled(State())
    }

    /** The subcolour for character c, which has colour co: a new one if there is need. */
    method NewSub(co: nat, ghost c: nat) returns (sco: int)
      requires Valid() && c < NCHRS && Paint()[c] == co
      modifies this`cd, this`max, this`free, this`chain
      ensures sco == COLORLESS ==> Valid() && free == 0 && max == MAX_COLOR
      ensures sco != COLORLESS ==> sco >= 0 && Pending(co) && Chosen(cd, co, sco) && Real(cd, max, sco)
      ensures Solid(cd, max) == old(Solid(cd, max))
    {
      hide TreeOk, Colored, ChainOk, Counted, Grouped, Touched, Peopled, SubsOk;
      ColoredClosed(tree, cd, max);
      PaintReal(State(), c);
      ColorSub(State(), c);
      sco := cd[co].sub;
      if sco == NOSUB {
        if cd[co].nchrs == 1 {
          SoundPending(State(), co);
          return co;
        }
        sco := NewColor();
        if sco == COLORLESS {
          return;
        }
        OpenSub(co, sco, old(State()));
      } else {
        SoundPending(State(), co);
      }
    }

    /** Makes a colour just come into use the open subcolour of co. */
    method OpenSub(co: nat, sco: nat, ghost g: Coloring)
      requires TreeFine() && ChainOk(cd, max, free, chain) && Sound(g) && g.paint == Paint()
      requires g == Coloring(Paint(), g.cd, g.max, full, was, taken) && NewEntry(g.cd, g.max, sco, cd, max)
      requires Real(g.cd, g.max, co) && co in full && g.cd[co].sub == NOSUB && g.cd[co].nchrs != 1
      modifies this`cd
      ensures Pending(co) && Chosen(cd, co, sco) && Real(cd, max, sco) && Solid(cd, max) == old(Solid(cd, max))
    {
      hide TreeOk, Colored, ChainOk, Counted, Grouped, Touched, Peopled, SubsOk, Solid;
      ghost var was := cd;
      cd := cd[co := cd[co].(sub := sco)];
      cd := cd[sco := cd[sco].(sub := sco)];
      SameBlocksFine(tree, was, max, cd);
      SameBlocksChain(was, max, free, chain, cd);
      OpenedSub(g.cd, g.max, full, co, cd, max, sco);
      Opened(g, co, sco, State());
    }

    /** Moves n characters' worth from the count of one colour to that of another. */
    method Recount(co: nat, sco: nat, n: nat)
      requires TreeFine() && ChainOk(cd, max, free, chain) && co < |cd| && sco < |cd| && cd[co].nchrs >= n
      modifies this`cd
      ensures TreeFine() && ChainOk(cd, max, free, chain) && Solid(cd, max) == old(Solid(cd, max))
      ensures cd == Moved(old(cd), co, sco, n) && forall k: nat :: InUse(cd, max, k) == old(InUse(cd, max, k))
    {
      hide TreeOk, Colored, ChainOk, Solid, BlocksOk;
      ghost var ce := Moved(cd, co, sco, n);
      SameBlocksFine(tree, cd, max, ce);
      SameBlocksChain(cd, max, free, chain, ce);
      cd := cd[co := cd[co].(nchrs := cd[co].nchrs - n)];
      cd := cd[sco := cd[sco].(nchrs := cd[sco].nchrs + n)];
    }

    /** Takes one character: it goes to the open subcolour of the colour it had. */
    method SubColor(c: nat) returns (sco: int)
      requires Valid() && c < NCHRS
      modifies this
      ensures Valid() && Keeps(old(State()), State())
      ensures sco == COLORLESS ==> free == 0 && max == MAX_COLOR
      ensures sco != COLORLESS ==> taken == old(taken) + {c} && sco == Paint()[c]
    {
      hide TreeOk, Colored, ChainOk, Counted, Grouped, Touched, Peopled, SubsOk, Sound, Solid, Recolored, Painting;
      ColoredClosed(tree, cd, max);
      var co := GetColor(c);
      sco := NewSub(co, c);
      if sco == COLORLESS {
        return;
      }
      ghost var g := State();
      TookSound(g, c, c + 1, co, sco);
      TookOne(g, c, co, sco);
      if co != sco {
        Recount(co, sco, 1);
        var prev := SetColor(c, sco);
      }
      taken := taken + {c};
      ColoredClosed(tree, cd, max);
      assert State() == Took(g, c, c + 1, co, sco);
    }

    // -------------------------------------------------------------- freeing colours

    /** All free colours but co are in the chain. */
    ghost predicate ChainBut(co: nat)
      reads this
    {
      && max < |cd| <= MAX_COLOR + 1 && Real(cd, max, WHITE)
      && Linked(cd, free, chain) && Distinct(chain)
      && forall k: nat :: k in chain <==> k <= max && cd[k].freed && k != co
    }

    /** Frees a colour, which no character may have. White stays. */
    method FreeColor(co: nat)
      requires TreeFine() && ChainOk(cd, max, free, chain) && InUse(cd, max, co) && cd[co].sub == NOSUB
      requires co != WHITE ==> forall c: nat :: c < SPELLED ==> Paint()[c] != co
      modifies this`tree, this`cd, this`max, this`free, this`chain
      ensures TreeFine() && ChainOk(cd, max, free, chain) && Paint() == old(Paint())
      ensures forall k: nat :: InUse(cd, max, k) <==> old(InUse(cd, max, k)) && (k != co || co == WHITE)
      ensures |cd| == old(|cd|) && forall k: nat :: InUse(cd, max, k) ==> cd[k] == old(cd[k])
      ensures co == WHITE ==> cd == old(cd) && max == old(max)
      ensures forall k: nat :: k < |cd| && k != co ==> cd[k].freed == old(cd[k].freed)
      ensures max <= old(max) && forall k: nat :: max < k <= old(max) ==> cd[k].freed
    {
      hide TreeOk, Colored, Solid, BlocksOk, Painting;
      if co == WHITE {
        return;
      }
      FreeBlock(co);
      if co == max {
        TrimMax();
      } else {
        ghost var was := cd;
        cd := cd[co := cd[co].(sub := free)];
        LinkedKept(was, cd, free, chain);
        free := co;
        chain := [co] + chain;
        SameUseFine(tree, was, max, cd, max);
      }
    }

    /** Marks a colour as free and frees its solid block. */
    method FreeBlock(co: nat)
      requires TreeFine() && ChainOk(cd, max, free, chain) && InUse(cd, max, co) && co != WHITE
      requires forall c: nat :: c < SPELLED ==> Paint()[c] != co
      modifies this`tree, this`cd
      ensures TreeFine() && ChainBut(co) && Paint() == old(Paint())
      ensures |cd| == old(|cd|) && cd[co].freed && forall k: nat :: k < |cd| && k != co ==> cd[k] == old(cd[k])
    {
      hide TreeOk, Colored, BlocksOk, Solid, Painting, ChainOk;
      ghost var was, solid := cd, Solid(cd, max);
      ColoredClosed(tree, cd, max);
      assert Paint() == Painting(tree);
      NotColored(tree, cd, max, co);
      ChainLess(cd, max, free, chain, co);
      FreedTable(tree, cd, max, co);
      var block := cd[co].block;
      cd := cd[co := cd[co].(freed := true, pseudo := false, block := NOBLOCK)];
      if block != NOBLOCK {
        FreedSolid(tree, made, solid, home, co);
        OkClosed(WithoutSolid(tree, block), made, solid - {co}, home);
        ColoredKept(tree, WithoutSolid(tree, block), cd, max);
        tree := WithoutSolid(tree, block);
      }
    }

    /** When the highest colour is free, the next highest in use becomes the highest, and the chain is cut down to match. */
    method TrimMax()
      requires TreeFine() && ChainBut(max) && cd[max].freed
      modifies this`cd, this`max, this`free, this`chain
      ensures TreeFine() && ChainOk(cd, max, free, chain)
      ensures forall k: nat :: InUse(cd, max, k) == old(InUse(cd, max, k))
      ensures |cd| == old(|cd|) && forall k: nat :: InUse(cd, max, k) ==> cd[k] == old(cd[k])
      ensures max <= old(max) && forall k: nat :: max < k <= old(max) ==> cd[k].freed
      ensures forall k: nat :: k < |cd| ==> cd[k].freed == old(cd[k].freed)
    {
      hide TreeOk, Colored, Solid, BlocksOk, Linked, Distinct;
      ghost var was, top := cd, max;
      while max > WHITE && cd[max].freed
        invariant cd == was && free == old(free) && chain == old(chain)
        invariant max <= top && forall k: nat :: max < k <= top ==> cd[k].freed
      {
        max := max - 1;
      }
      TrimChain(top);
      SameUseFine(tree, was, top, cd, max);
    }

    /** Drops from the chain the colours above the highest in use. */
    method TrimChain(ghost top: nat)
      requires max < top < |cd| <= MAX_COLOR + 1 && Real(cd, max, WHITE) && InUse(cd, max, max)
      requires Linked(cd, free, chain) && Distinct(chain)
      requires forall k: nat :: k in chain <==> k < top && cd[k].freed
      modifies this`cd, this`free, this`chain
      ensures ChainOk(cd, max, free, chain)
      ensures Relinked(old(cd), cd)
    {
      while free > max
        invariant cd == old(cd)
        invariant Linked(cd, free, chain) && Distinct(chain)
        invariant forall k: nat :: k in chain ==> k < top && cd[k].freed
        invariant forall k: nat :: k <= max && cd[k].freed ==> k in chain
        decreases |chain|
      {
        ChainHead(cd, free, chain);
        free := cd[free].sub;
        chain := chain[1..];
      }
      if free > 0 {
        CutChain(top);
      } else {
        ChainHead(cd, free, chain);
      }
    }

    /** Unlinks the colours above the highest in use from the part of the chain after its head. */
    method CutChain(ghost top: nat)
      requires 0 < free <= max < top < |cd| <= MAX_COLOR + 1
      requires Linked(cd, free, chain) && Distinct(chain)
      requires forall k: nat :: k in chain ==> k < top && cd[k].freed
      requires forall k: nat :: k <= max && cd[k].freed ==> k in chain
      modifies this`cd, this`chain
      ensures Relinked(old(cd), cd) && Linked(cd, free, chain) && Distinct(chain)
      ensures forall k: nat :: k in chain <==> k <= max && cd[k].freed
    {
      hide Cutting, Linked, Distinct;
      ChainHead(cd, free, chain);
      var pco: nat := free;
      var nco := cd[pco].sub;
      ghost var kept, rest := [chain[0]], chain[1..];
      CuttingStarts(cd, max, top, free, chain);
      while nco > 0
        invariant Cutting(old(cd), cd, max, top, free, kept, rest, pco)
        invariant |cd| == old(|cd|) && pco < |cd| && nco == cd[pco].sub
        decreases |rest|
      {
        CuttingRest(old(cd), cd, max, top, free, kept, rest, pco);
        if nco > max {
          CuttingOut(old(cd), cd, max, top, free, kept, rest, pco);
          nco := cd[nco].sub;
          cd := cd[pco := cd[pco].(sub := nco)];
          rest := rest[1..];
        } else {
          CuttingOn(old(cd), cd, max, top, free, kept, rest, pco);
          pco := nco;
          nco := cd[pco].sub;
          kept, rest := kept + [rest[0]], rest[1..];
        }
      }
      CuttingEnds(old(cd), cd, max, top, free, kept, rest, pco);
      chain := kept;
    }

    /** Allocates a colour that stands for no character. */
    method PseudoColor() returns (co: int)
      requires Valid()
      modifies this`cd, this`max, this`free, this`chain, this`full
      ensures Valid() && Paint() == old(Paint())
      ensures co == COLORLESS ==> full == old(full)
      ensures co != COLORLESS ==> co >= 0 && full == old(full) + {co as nat} && InUse(cd, max, co) && cd[co].pseudo
      ensures co != COLORLESS ==> forall c :: 0 <= c < SPELLED ==> Paint()[c] != co
    {
      hide TreeOk, Colored, ChainOk, Sound, Solid, BlocksOk;
      ColoredClosed(tree, cd, max);
      ghost var g := State();
      co := NewColor();
      if co == COLORLESS {
        return;
      }
      PseudoSound(g, co, cd, max);
      PseudoFine(tree, cd, max, co);
      PseudoChain(cd, max, free, chain, co);
      cd := cd[co := cd[co].(nchrs := 1, pseudo := true)];
      full := full + {co as nat};
    }
  }
}
