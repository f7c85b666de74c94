/**
 * The colour map's tree: every character's colour, found by its four bytes.
 * Lower blocks may be shared, so a block is named by its level and a number,
 * and several slots above may hold the same number. Number 0 at each level is
 * the block inside the colour map itself: the top at level 0, the fill block
 * below that.
 */
module ColorTree {

  const BYTTAB: nat := 256
  const NBYTS: nat := 4
  /** The characters that four bytes can spell, and how many of them are real ones. */
  const SPELLED: nat := 0x1_0000_0000
  const NCHRS: nat := 0x11_0000
  const WHITE: nat := 0

  datatype Name = Name(level: nat, no: nat)

  /** Pointer blocks at the levels above the last, colour blocks at the last level. */
  datatype Tree = Tree(ptrs: map<Name, seq<nat>>, colors: map<nat, seq<nat>>)

  /** The solid block of each colour that has one. */
  type Blocks = map<nat, nat>

  /** A block with one entry changed. */
  function Put(block: seq<nat>, b: nat, x: nat): (r: seq<nat>)
    requires b < |block|
    ensures |r| == |block| && r[b] == x && forall i :: 0 <= i < |r| && i != b ==> r[i] == block[i]
  {
    block[b := x]
  }

  // ---------------------------------------------------------------- shape

  /** No pointer dangles: every slot holds the number of a block one level down. */
  ghost predicate Closed(t: Tree) {
    && Name(0, 0) in t.ptrs
    && (forall n :: n in t.ptrs ==> n.level < NBYTS - 1 && |t.ptrs[n]| == BYTTAB)
    && (forall k :: k in t.colors ==> |t.colors[k]| == BYTTAB)
    && (forall n: Name, b: nat :: n in t.ptrs && b < BYTTAB ==> Exists(t, n.level + 1, t.ptrs[n][b]))
  }

  ghost predicate Exists(t: Tree, level: nat, no: nat) {
    if level < NBYTS - 1 then Name(level, no) in t.ptrs else no in t.colors
  }

  /** The blocks that any number of slots may hold: fill blocks and solid blocks. */
  ghost predicate Shared(solid: Blocks, level: nat, no: nat) {
    if level < NBYTS - 1 then no == 0 else no in solid.Values
  }

  /** A fill block holds nothing but the fill block below. */
  ghost predicate FillsFilled(t: Tree)
    requires Closed(t)
  {
    && (forall n: Name, b: nat :: n in t.ptrs && n.level > 0 && n.no == 0 && b < BYTTAB ==> t.ptrs[n][b] == 0)
    && (forall level: nat :: level < NBYTS - 1 ==> Name(level, 0) in t.ptrs)
    && (forall n :: n in t.ptrs && n.level == 0 ==> n.no == 0)
  }

  /** A colour's solid block holds that colour everywhere; white's is the last fill block. */
  ghost predicate SolidsSolid(t: Tree, solid: Blocks) {
    && WHITE in solid && solid[WHITE] == 0
    && forall co :: co in solid ==> IsSolid(t, solid[co], co)
  }

  ghost predicate IsSolid(t: Tree, k: nat, co: nat) {
    k in t.colors && |t.colors[k]| == BYTTAB && forall b: nat :: b < BYTTAB ==> t.colors[k][b] == co
  }

  /** Where the one slot is that holds a block that is not shared. */
  type Homes = map<Name, (nat, nat)>

  /** A block that is not shared is held by one slot, its home. */
  ghost predicate Owned(t: Tree, solid: Blocks, home: Homes)
    requires Closed(t)
  {
    && (forall n: Name, b: nat :: n in t.ptrs && b < BYTTAB && !Shared(solid, n.level + 1, t.ptrs[n][b]) ==>
          Lives(home, n, b, t.ptrs[n][b]))
    && (forall n :: n in t.ptrs && n.no != 0 ==> Housed(t, home, n))
  }

  ghost predicate Lives(home: Homes, n: Name, b: nat, no: nat) {
    var c := Name(n.level + 1, no);
    c in home && home[c] == (n.no, b)
  }

  ghost predicate Housed(t: Tree, home: Homes, n: Name)
    requires Closed(t)
  {
    && n.level > 0 && n in home && home[n].1 < BYTTAB
    && Name(n.level - 1, home[n].0) in t.ptrs
    && t.ptrs[Name(n.level - 1, home[n].0)][home[n].1] == n.no
  }

  ghost predicate WellMade(t: Tree, solid: Blocks, home: Homes) {
    Closed(t) && FillsFilled(t) && SolidsSolid(t, solid) && Owned(t, solid, home)
  }

  // ---------------------------------------------------------------- looking up

  /** How many prefixes of the given number of bytes there are. */
  ghost function Span(level: nat): (r: nat)
    ensures r > 0
  {
    if level == 0 then 1 else BYTTAB * Span(level - 1)
  }

  /** The block that the bytes of the prefix p lead to. */
  ghost function Reach(t: Tree, level: nat, p: nat): (no: nat)
    requires Closed(t) && level < NBYTS
    ensures Exists(t, level, no)
  {
    if level == 0 then 0 else t.ptrs[Name(level - 1, Reach(t, level - 1, p / BYTTAB))][p % BYTTAB]
  }

  /** The colour of character c. */
  ghost function ColorAt(t: Tree, c: nat): nat
    requires Closed(t)
  {
    t.colors[Reach(t, NBYTS - 1, c / BYTTAB)][c % BYTTAB]
  }

  lemma SpanValues()
    ensures Span(0) == 1 && Span(1) == 256 && Span(2) == 65536 && Span(3) == 0x100_0000
  {
    assert Span(1) == 256;
    assert Span(2) == 65536;
  }

  /** A block that is not shared is reached in one way only. */
  lemma {:induction false} OneWay(t: Tree, solid: Blocks, home: Homes, level: nat, p: nat, q: nat)
    requires WellMade(t, solid, home) && level < NBYTS && p < Span(level) && q < Span(level)
    requires Reach(t, level, p) == Reach(t, level, q)
    requires level > 0 ==> !Shared(solid, level, Reach(t, level, p))
    ensures p == q
  {
    hide Closed, FillsFilled, SolidsSolid, Owned, Shared;
    if level > 0 {
      var x, y := Reach(t, level - 1, p / BYTTAB), Reach(t, level - 1, q / BYTTAB);
      OneSlot(t, solid, home, level - 1, x, p % BYTTAB, y, q % BYTTAB);
      OneWay(t, solid, home, level - 1, p / BYTTAB, q / BYTTAB);
    }
  }

  /** Two slots at a level that hold the same block, not a shared one, are the same slot. */
  lemma OneSlot(t: Tree, solid: Blocks, home: Homes, level: nat, x: nat, b: nat, y: nat, d: nat)
    requires WellMade(t, solid, home) && level < NBYTS - 1 && b < BYTTAB && d < BYTTAB
    requires Exists(t, level, x) && Exists(t, level, y)
    requires t.ptrs[Name(level, x)][b] == t.ptrs[Name(level, y)][d]
    requires !Shared(solid, level + 1, t.ptrs[Name(level, x)][b])
    ensures x == y && b == d && (level > 0 ==> !Shared(solid, level, x))
  {
    var n, m := Name(level, x), Name(level, y);
    assert Lives(home, n, b, t.ptrs[n][b]);
    assert Lives(home, m, d, t.ptrs[m][d]);
    NotFill(t, solid, n, b);
  }

  /** What is not shared does not hang below a fill block. */
  lemma NotFill(t: Tree, solid: Blocks, n: Name, b: nat)
    requires Closed(t) && FillsFilled(t) && SolidsSolid(t, solid)
    requires n in t.ptrs && b < BYTTAB && !Shared(solid, n.level + 1, t.ptrs[n][b])
    ensures n.level > 0 ==> n.no != 0
  {
    assert solid[WHITE] in solid.Values;
  }

  /** Every pointer block, save an unused fill block, is reached by some prefix. */
  lemma {:induction false} SomeWay(t: Tree, solid: Blocks, home: Homes, n: Name) returns (p: nat)
    requires WellMade(t, solid, home) && n in t.ptrs && (n.level == 0 || n.no != 0)
    ensures p < Span(n.level) && Reach(t, n.level, p) == n.no
    decreases n.level
  {
    if n.level == 0 {
      p := 0;
    } else {
      assert Housed(t, home, n);
      var up := Name(n.level - 1, home[n].0);
      assert !Shared(solid, n.level, n.no);
      NotFill(t, solid, up, home[n].1);
      var q := SomeWay(t, solid, home, up);
      p := q * BYTTAB + home[n].1;
      assert p / BYTTAB == q && p % BYTTAB == home[n].1;
    }
  }

  // ---------------------------------------------------------------- giving a slot a block of its own

  /** The tree with a fresh copy, number m, of the pointer block at slot (n, b), the copy put in the slot. */
  function CopyPtrs(t: Tree, n: Name, b: nat, m: nat): Tree
    requires n in t.ptrs && |t.ptrs[n]| == BYTTAB && b < BYTTAB && Name(n.level + 1, t.ptrs[n][b]) in t.ptrs
  {
    var copy := t.ptrs[Name(n.level + 1, t.ptrs[n][b])];
    Tree(t.ptrs[Name(n.level + 1, m) := copy][n := Put(t.ptrs[n], b, m)], t.colors)
  }

  function SetSlot(t: Tree, n: Name, b: nat, m: nat): Tree
    requires n in t.ptrs && |t.ptrs[n]| == BYTTAB && b < BYTTAB
  {
    Tree(t.ptrs[n := Put(t.ptrs[n], b, m)], t.colors)
  }

  /** What a copied fill block leaves in every slot. */
  ghost predicate Copied(t: Tree, n: Name, b: nat, m: nat, r: Tree) {
    var c := Name(n.level + 1, m);
    && r.colors == t.colors && r.ptrs.Keys == t.ptrs.Keys + {c}
    && (forall x :: x in t.ptrs ==> |t.ptrs[x]| == BYTTAB)
    && (forall x :: x in r.ptrs ==> |r.ptrs[x]| == BYTTAB)
    && (forall x: Name, j: nat :: x in t.ptrs && j < BYTTAB && !(x == n && j == b) ==> r.ptrs[x][j] == t.ptrs[x][j])
    && (n in t.ptrs && b < BYTTAB ==> r.ptrs[n][b] == m)
    && (forall j: nat :: j < BYTTAB ==> r.ptrs[c][j] == 0)
  }

  ghost predicate CanCopy(t: Tree, n: Name, b: nat, m: nat)
    requires Closed(t)
  {
    && n in t.ptrs && b < BYTTAB && n.level < NBYTS - 2 && t.ptrs[n][b] == 0
    && m != 0 && Name(n.level + 1, m) !in t.ptrs && (n.level > 0 ==> n.no != 0)
  }

  lemma CopyPtrsWellMade(t: Tree, solid: Blocks, home: Homes, n: Name, b: nat, m: nat)
    requires WellMade(t, solid, home) && CanCopy(t, n, b, m)
    ensures WellMade(CopyPtrs(t, n, b, m), solid, home[Name(n.level + 1, m) := (n.no, b)])
  {
    hide WellMade, SolidsSolid, Owned;
    PartsOf(t, solid, home);
    var r := CopyPtrs(t, n, b, m);
    CopyEntries(t, n, b, m);
    CopyClosed(t, n, b, m, r);
    CopyHomes(t, solid, home, n, b, m, r);
    CopySolids(t, solid, r);
    MadeOf(r, solid, home[Name(n.level + 1, m) := (n.no, b)]);
  }

  lemma PartsOf(t: Tree, solid: Blocks, home: Homes)
    requires WellMade(t, solid, home)
    ensures Closed(t) && FillsFilled(t) && SolidsSolid(t, solid) && Owned(t, solid, home)
  {
  }

  lemma MadeOf(t: Tree, solid: Blocks, home: Homes)
    requires Closed(t) && FillsFilled(t) && SolidsSolid(t, solid) && Owned(t, solid, home)
    ensures WellMade(t, solid, home)
  {
  }

  lemma CopySolids(t: Tree, solid: Blocks, r: Tree)
    requires SolidsSolid(t, solid) && r.colors == t.colors
    ensures SolidsSolid(r, solid)
  {
    forall co | co in solid ensures IsSolid(r, solid[co], co) {
      assert IsSolid(t, solid[co], co);
    }
  }

  lemma CopyEntries(t: Tree, n: Name, b: nat, m: nat)
    requires Closed(t) && FillsFilled(t) && CanCopy(t, n, b, m)
    ensures Copied(t, n, b, m, CopyPtrs(t, n, b, m))
  {
    var fill := Name(n.level + 1, 0);
    assert fill in t.ptrs;
    assert forall j: nat :: j < BYTTAB ==> t.ptrs[fill][j] == 0;
  }

  lemma CopyClosed(t: Tree, n: Name, b: nat, m: nat, r: Tree)
    requires Closed(t) && FillsFilled(t) && CanCopy(t, n, b, m) && Copied(t, n, b, m, r)
    ensures Closed(r) && FillsFilled(r)
  {
    var c := Name(n.level + 1, m);
    forall x: Name, j: nat | x in r.ptrs && j < BYTTAB ensures Exists(r, x.level + 1, r.ptrs[x][j]) {
      if x == c {
        assert Name(c.level, 0) in t.ptrs && t.ptrs[Name(c.level, 0)][0] == 0;
        assert Exists(t, c.level + 1, 0);
      } else if !(x == n && j == b) {
        assert Exists(t, x.level + 1, t.ptrs[x][j]);
      }
    }
  }

  lemma CopyHomes(t: Tree, solid: Blocks, home: Homes, n: Name, b: nat, m: nat, r: Tree)
    requires Closed(t) && SolidsSolid(t, solid) && Owned(t, solid, home)
    requires CanCopy(t, n, b, m) && Copied(t, n, b, m, r) && Closed(r)
    ensures Owned(r, solid, home[Name(n.level + 1, m) := (n.no, b)])
  {
    var c := Name(n.level + 1, m);
    var g := home[c := (n.no, b)];
    assert solid[WHITE] in solid.Values;
    forall x: Name, j: nat | x in r.ptrs && j < BYTTAB && !Shared(solid, x.level + 1, r.ptrs[x][j])
      ensures Lives(g, x, j, r.ptrs[x][j])
    {
      if x != c && !(x == n && j == b) {
        KeepsLiving(t, solid, home, x, j, c, (n.no, b));
      }
    }
    forall x | x in r.ptrs && x.no != 0 ensures Housed(r, g, x) {
      if x != c {
        assert Housed(t, home, x);
      }
    }
  }

  /** A home is not disturbed by giving one to a block that was not there. */
  lemma KeepsLiving(t: Tree, solid: Blocks, home: Homes, x: Name, j: nat, c: Name, at: (nat, nat))
    requires Closed(t) && Owned(t, solid, home) && x in t.ptrs && j < BYTTAB
    requires !Shared(solid, x.level + 1, t.ptrs[x][j]) && !Exists(t, c.level, c.no)
    ensures Lives(home[c := at], x, j, t.ptrs[x][j])
  {
    assert Lives(home, x, j, t.ptrs[x][j]);
    assert Exists(t, x.level + 1, t.ptrs[x][j]);
  }

  /** Copying a block changes no lookup. */
  lemma {:induction false} CopyPtrsReach(t: Tree, n: Name, b: nat, m: nat, r: Tree, level: nat, p: nat)
    requires Closed(t) && FillsFilled(t) && CanCopy(t, n, b, m) && Copied(t, n, b, m, r)
    requires Closed(r) && level < NBYTS
    ensures var x, y := Reach(t, level, p), Reach(r, level, p);
            x == y || (level == n.level + 1 && x == 0 && y == m)
  {
    hide Closed;
    if level > 0 {
      CopyPtrsReach(t, n, b, m, r, level - 1, p / BYTTAB);
      assert Exists(t, level - 1, Reach(t, level - 1, p / BYTTAB));
    }
  }

  lemma CopyPtrsColors(t: Tree, n: Name, b: nat, m: nat)
    requires Closed(t) && FillsFilled(t) && CanCopy(t, n, b, m) && Closed(CopyPtrs(t, n, b, m))
    ensures forall c: nat :: ColorAt(CopyPtrs(t, n, b, m), c) == ColorAt(t, c)
  {
    CopyEntries(t, n, b, m);
    forall c: nat ensures ColorAt(CopyPtrs(t, n, b, m), c) == ColorAt(t, c) {
      CopyPtrsReach(t, n, b, m, CopyPtrs(t, n, b, m), NBYTS - 1, c / BYTTAB);
    }
  }

  // ---------------------------------------------------------------- colour blocks

  /** The tree with slot (n, b) led to a fresh copy, number m, of the colour block it held. */
  function CopyColors(t: Tree, n: Name, b: nat, m: nat): Tree
    requires n in t.ptrs && |t.ptrs[n]| == BYTTAB && b < BYTTAB && t.ptrs[n][b] in t.colors
  {
    SetSlot(Tree(t.ptrs, t.colors[m := t.colors[t.ptrs[n][b]]]), n, b, m)
  }

  lemma CopyColorsWellMade(t: Tree, solid: Blocks, home: Homes, n: Name, b: nat, m: nat)
    requires WellMade(t, solid, home) && n in t.ptrs && b < BYTTAB && n.level == NBYTS - 2
    requires n.no != 0 && m !in t.colors
    ensures WellMade(CopyColors(t, n, b, m), solid, home[Name(NBYTS - 1, m) := (n.no, b)])
    ensures m !in solid.Values
  {
    var r := CopyColors(t, n, b, m);
    forall co | co in solid ensures IsSolid(t, solid[co], co) && solid[co] != m {
    }
    assert SolidsSolid(r, solid) by {
      forall co | co in solid ensures IsSolid(r, solid[co], co) {
        assert IsSolid(t, solid[co], co);
      }
    }
    SlotSetWellMade(t, solid, home, n, b, m, r);
  }

  /** What putting a colour block in a slot of a pointer block at the last pointer level leaves well made. */
  lemma SlotSetWellMade(t: Tree, solid: Blocks, home: Homes, n: Name, b: nat, m: nat, r: Tree)
    requires WellMade(t, solid, home) && n in t.ptrs && b < BYTTAB && n.level == NBYTS - 2 && n.no != 0
    requires r.ptrs == t.ptrs[n := Put(t.ptrs[n], b, m)] && m in r.colors
    requires forall k :: k in t.colors ==> k in r.colors
    requires forall k :: k in r.colors ==> |r.colors[k]| == BYTTAB
    requires SolidsSolid(r, solid)
    requires m in solid.Values || m !in t.colors
    ensures WellMade(r, solid, home[Name(NBYTS - 1, m) := (n.no, b)])
  {
    hide SolidsSolid, Owned;
    SlotEntries(t, n, b, m, r);
    SlotClosed(t, n, b, m, r);
    SlotHomes(t, solid, home, n, b, m, r);
  }

  /** Slot (n, b) holds m and every other slot what it did. */
  ghost predicate SlotSet(t: Tree, n: Name, b: nat, m: nat, r: Tree) {
    && n in t.ptrs && b < BYTTAB && r.ptrs.Keys == t.ptrs.Keys
    && (forall x :: x in t.ptrs ==> |t.ptrs[x]| == BYTTAB)
    && (forall x :: x in r.ptrs ==> |r.ptrs[x]| == BYTTAB)
    && (forall x: Name, j: nat :: x in t.ptrs && j < BYTTAB && !(x == n && j == b) ==> r.ptrs[x][j] == t.ptrs[x][j])
    && r.ptrs[n][b] == m
  }

  lemma SlotEntries(t: Tree, n: Name, b: nat, m: nat, r: Tree)
    requires Closed(t) && n in t.ptrs && b < BYTTAB && r.ptrs == t.ptrs[n := Put(t.ptrs[n], b, m)]
    ensures SlotSet(t, n, b, m, r)
  {
  }

  lemma SlotClosed(t: Tree, n: Name, b: nat, m: nat, r: Tree)
    requires Closed(t) && FillsFilled(t) && SlotSet(t, n, b, m, r) && n.level == NBYTS - 2 && n.no != 0
    requires m in r.colors && forall k :: k in t.colors ==> k in r.colors
    requires forall k :: k in r.colors ==> |r.colors[k]| == BYTTAB
    ensures Closed(r) && FillsFilled(r)
  {
    forall x: Name, j: nat | x in r.ptrs && j < BYTTAB ensures Exists(r, x.level + 1, r.ptrs[x][j]) {
      if !(x == n && j == b) {
        assert Exists(t, x.level + 1, t.ptrs[x][j]);
      }
    }
  }

  lemma SlotHomes(t: Tree, solid: Blocks, home: Homes, n: Name, b: nat, m: nat, r: Tree)
    requires Closed(t) && Closed(r) && Owned(t, solid, home) && SlotSet(t, n, b, m, r) && n.level == NBYTS - 2
    requires m in solid.Values || m !in t.colors
    ensures Owned(r, solid, home[Name(NBYTS - 1, m) := (n.no, b)])
  {
    var c := Name(NBYTS - 1, m);
    var g := home[c := (n.no, b)];
    forall x: Name, j: nat | x in r.ptrs && j < BYTTAB && !Shared(solid, x.level + 1, r.ptrs[x][j])
      ensures Lives(g, x, j, r.ptrs[x][j])
    {
      if !(x == n && j == b) {
        if m !in t.colors {
          KeepsLiving(t, solid, home, x, j, c, (n.no, b));
        } else {
          assert Lives(home, x, j, t.ptrs[x][j]);
        }
      }
    }
    forall x | x in r.ptrs && x.no != 0 ensures Housed(r, g, x) {
      assert Housed(t, home, x);
    }
  }

  /** Setting a slot at the last pointer level changes no way above it. */
  lemma {:induction false} SetSlotReach(t: Tree, n: Name, b: nat, r: Tree, level: nat, p: nat)
    requires Closed(t) && Closed(r) && n in t.ptrs && b < BYTTAB && n.level == NBYTS - 2
    requires n in r.ptrs && r.ptrs == t.ptrs[n := Put(t.ptrs[n], b, r.ptrs[n][b])] && level < NBYTS - 1
    ensures Reach(r, level, p) == Reach(t, level, p)
  {
    if level > 0 {
      SetSlotReach(t, n, b, r, level - 1, p / BYTTAB);
    }
  }

  lemma CopyColorsColors(t: Tree, n: Name, b: nat, m: nat)
    requires Closed(t) && n in t.ptrs && b < BYTTAB && n.level == NBYTS - 2 && m !in t.colors
    requires Closed(CopyColors(t, n, b, m))
    ensures forall c: nat :: ColorAt(CopyColors(t, n, b, m), c) == ColorAt(t, c)
  {
    var r := CopyColors(t, n, b, m);
    forall c: nat ensures ColorAt(r, c) == ColorAt(t, c) {
      SetSlotReach(t, n, b, r, NBYTS - 2, c / BYTTAB / BYTTAB);
    }
  }

  /** One entry of a colour block changed. */
  function Paint(t: Tree, k: nat, b: nat, co: nat): Tree
    requires k in t.colors && |t.colors[k]| == BYTTAB && b < BYTTAB
  {
    Tree(t.ptrs, t.colors[k := Put(t.colors[k], b, co)])
  }

  lemma {:induction false} PaintReach(t: Tree, k: nat, b: nat, co: nat, level: nat, p: nat)
    requires Closed(t) && k in t.colors && b < BYTTAB && Closed(Paint(t, k, b, co)) && level < NBYTS
    ensures Reach(Paint(t, k, b, co), level, p) == Reach(t, level, p)
  {
    if level > 0 {
      PaintReach(t, k, b, co, level - 1, p / BYTTAB);
    }
  }

  lemma PaintMade(t: Tree, solid: Blocks, home: Homes, k: nat, b: nat, co: nat)
    requires WellMade(t, solid, home) && k in t.colors && b < BYTTAB && k !in solid.Values
    ensures WellMade(Paint(t, k, b, co), solid, home)
  {
    var r := Paint(t, k, b, co);
    forall x | x in solid ensures IsSolid(r, solid[x], x) {
      assert IsSolid(t, solid[x], x) && solid[x] in solid.Values;
    }
    forall x: Name, j: nat | x in r.ptrs && j < BYTTAB ensures Exists(r, x.level + 1, r.ptrs[x][j]) {
      assert Exists(t, x.level + 1, t.ptrs[x][j]);
    }
    forall x: Name, j: nat | x in r.ptrs && j < BYTTAB && !Shared(solid, x.level + 1, r.ptrs[x][j])
      ensures Lives(home, x, j, r.ptrs[x][j])
    {
      assert Lives(home, x, j, t.ptrs[x][j]);
    }
    forall x | x in r.ptrs && x.no != 0 ensures Housed(r, home, x) {
      assert Housed(t, home, x);
    }
  }

  /** Painting an entry of a block with one home recolours that one character. */
  lemma PaintColors(t: Tree, solid: Blocks, home: Homes, c: nat, co: nat)
    requires WellMade(t, solid, home) && c < SPELLED
    requires Reach(t, NBYTS - 1, c / BYTTAB) !in solid.Values
    ensures var r := Paint(t, Reach(t, NBYTS - 1, c / BYTTAB), c % BYTTAB, co);
            && WellMade(r, solid, home)
            && (forall d: nat :: d < SPELLED ==> ColorAt(r, d) == if d == c then co else ColorAt(t, d))
  {
    var k := Reach(t, NBYTS - 1, c / BYTTAB);
    var r := Paint(t, k, c % BYTTAB, co);
    PaintMade(t, solid, home, k, c % BYTTAB, co);
    forall d: nat | d < SPELLED
      ensures ColorAt(r, d) == if d == c then co else ColorAt(t, d)
    {
      PaintReach(t, k, c % BYTTAB, co, NBYTS - 1, d / BYTTAB);
      SpanValues();
      if Reach(t, NBYTS - 1, d / BYTTAB) == k {
        OneWay(t, solid, home, NBYTS - 1, d / BYTTAB, c / BYTTAB);
      }
    }
  }

  /** Putting a solid block in a slot with one way to it recolours the whole block of characters. */
  lemma SlotColors(t: Tree, solid: Blocks, home: Homes, c: nat, r: Tree, k: nat)
    requires WellMade(t, solid, home) && c < SPELLED && Closed(r) && k in r.colors
    requires var n := Name(NBYTS - 2, Reach(t, NBYTS - 2, c / BYTTAB / BYTTAB));
             n.no != 0 && r.ptrs == t.ptrs[n := Put(t.ptrs[n], c / BYTTAB % BYTTAB, k)]
    requires forall x :: x in t.colors ==> x in r.colors && r.colors[x] == t.colors[x]
    ensures forall d: nat :: d < SPELLED && d / BYTTAB != c / BYTTAB ==> ColorAt(r, d) == ColorAt(t, d)
    ensures forall d: nat :: d < SPELLED && d / BYTTAB == c / BYTTAB ==> ColorAt(r, d) == r.colors[k][d % BYTTAB]
  {
    var n := Name(NBYTS - 2, Reach(t, NBYTS - 2, c / BYTTAB / BYTTAB));
    var b := c / BYTTAB % BYTTAB;
    SpanValues();
    forall d: nat | d < SPELLED
      ensures ColorAt(r, d) == if d / BYTTAB == c / BYTTAB then r.colors[k][d % BYTTAB] else ColorAt(t, d)
    {
      SetSlotReach(t, n, b, r, NBYTS - 2, d / BYTTAB / BYTTAB);
      if Reach(t, NBYTS - 2, d / BYTTAB / BYTTAB) == n.no && d / BYTTAB % BYTTAB == b {
        OneWay(t, solid, home, NBYTS - 2, d / BYTTAB / BYTTAB, c / BYTTAB / BYTTAB);
      }
      assert Exists(t, NBYTS - 1, Reach(t, NBYTS - 1, d / BYTTAB));
    }
  }

  /** The colours of all the characters. */
  ghost function Painting(t: Tree): (s: seq<nat>)
    requires Closed(t)
    ensures |s| == SPELLED && forall c :: 0 <= c < SPELLED ==> s[c] == ColorAt(t, c)
  {
    seq(SPELLED, c requires 0 <= c < SPELLED => ColorAt(t, c))
  }

  /** What is left of c when its last k bytes are shifted out. */
  function Shifted(c: nat, k: nat): nat {
    if k == 0 then c else Shifted(c, k - 1) / BYTTAB
  }

  /** How a prefix of a character leads from one level to the next. */
  lemma Down(t: Tree, c: nat, level: nat)
    requires Closed(t) && level < NBYTS - 1
    ensures var k := NBYTS - 1 - level;
            Reach(t, level + 1, Shifted(c, k)) == t.ptrs[Name(level, Reach(t, level, Shifted(c, k + 1)))][Shifted(c, k) % BYTTAB]
  {
  }

  lemma OneShift(c: nat)
    ensures Shifted(c, 1) == c / BYTTAB && Shifted(c, 2) == c / BYTTAB / BYTTAB
  {
    assert Shifted(c, 1) == c / BYTTAB;
  }

  /** Every character's way starts at the top. */
  lemma TopReach(t: Tree, c: nat)
    requires Closed(t)
    ensures Reach(t, 0, Shifted(c, NBYTS)) == 0
  {
  }

  lemma ShiftedSpan(c: nat, level: nat)
    requires c < SPELLED && level <= NBYTS
    ensures Shifted(c, NBYTS - level) < Span(level)
    decreases NBYTS - level
  {
    if level == NBYTS {
      SpanValues();
    } else {
      ShiftedSpan(c, level + 1);
    }
  }

  // ---------------------------------------------------------------- steps of the tree walks

  /** The tree is well made, and no block has a number that was not given out. */
  ghost predicate TreeOk(t: Tree, made: nat, solid: Blocks, home: Homes) {
    WellMade(t, solid, home) && made > 0
    && (forall n :: n in t.ptrs ==> n.no < made) && (forall k :: k in t.colors ==> k < made)
  }

  lemma OwnedPtrs(t: Tree, made: nat, solid: Blocks, home: Homes, n: Name, b: nat)
    requires TreeOk(t, made, solid, home) && n in t.ptrs && n.level < NBYTS - 2 && (n.level > 0 ==> n.no != 0)
    requires b < BYTTAB && t.ptrs[n][b] == 0
    ensures var r := CopyPtrs(t, n, b, made);
            && TreeOk(r, made + 1, solid, home[Name(n.level + 1, made) := (n.no, b)])
            && Painting(r) == Painting(t) && n in r.ptrs && r.ptrs[n][b] == made
            && forall p :: Reach(r, n.level, p) == Reach(t, n.level, p)
  {
    CopyPtrsWellMade(t, solid, home, n, b, made);
    CopyPtrsColors(t, n, b, made);
    CopyEntries(t, n, b, made);
    forall p ensures Reach(CopyPtrs(t, n, b, made), n.level, p) == Reach(t, n.level, p) {
      CopyPtrsReach(t, n, b, made, CopyPtrs(t, n, b, made), n.level, p);
    }
  }

  lemma OwnedColors(t: Tree, made: nat, solid: Blocks, home: Homes, n: Name, b: nat)
    requires TreeOk(t, made, solid, home) && n in t.ptrs && n.level == NBYTS - 2 && n.no != 0
    requires b < BYTTAB
    ensures var r := CopyColors(t, n, b, made);
            && TreeOk(r, made + 1, solid, home[Name(n.level + 1, made) := (n.no, b)])
            && Painting(r) == Painting(t) && n in r.ptrs && r.ptrs[n][b] == made && made !in solid.Values
            && forall p :: Reach(r, n.level, p) == Reach(t, n.level, p)
  {
    CopyColorsWellMade(t, solid, home, n, b, made);
    var r := CopyColors(t, n, b, made);
    CopyColorsColors(t, n, b, made);
    forall p ensures Reach(r, n.level, p) == Reach(t, n.level, p) {
      SetSlotReach(t, n, b, r, n.level, p);
    }
  }

  /** Painting the entry of a block with one home changes one character in the painting. */
  lemma PaintedOne(t: Tree, made: nat, solid: Blocks, home: Homes, c: nat, co: nat, k: nat)
    requires TreeOk(t, made, solid, home) && c < SPELLED
    requires Reach(t, NBYTS - 1, c / BYTTAB) == k && k !in solid.Values
    ensures TreeOk(Paint(t, k, c % BYTTAB, co), made, solid, home)
    ensures Painting(Paint(t, k, c % BYTTAB, co)) == Put(Painting(t), c, co)
    ensures Reach(Paint(t, k, c % BYTTAB, co), NBYTS - 1, c / BYTTAB) == k
  {
    PaintColors(t, solid, home, c, co);
    assert Closed(Paint(t, k, c % BYTTAB, co));
    PaintingPut(t, Paint(t, k, c % BYTTAB, co), c, co);
    PaintReach(t, k, c % BYTTAB, co, NBYTS - 1, c / BYTTAB);
  }

  lemma PaintingPut(t: Tree, r: Tree, c: nat, co: nat)
    requires Closed(t) && Closed(r) && c < SPELLED
    requires forall d: nat :: d < SPELLED ==> ColorAt(r, d) == if d == c then co else ColorAt(t, d)
    ensures Painting(r) == Put(Painting(t), c, co)
  {
  }

  /** A solid block for a colour that had none. */
  function WithSolid(t: Tree, m: nat, co: nat): Tree {
    Tree(t.ptrs, t.colors[m := seq(BYTTAB, _ => co)])
  }

  lemma AddedSolid(t: Tree, made: nat, solid: Blocks, home: Homes, co: nat)
    requires TreeOk(t, made, solid, home) && co !in solid
    ensures var r := WithSolid(t, made, co);
            && TreeOk(r, made + 1, solid[co := made], home) && Painting(r) == Painting(t)
            && forall level: nat, p :: level < NBYTS ==> Reach(r, level, p) == Reach(t, level, p)
  {
    var r := WithSolid(t, made, co);
    AddedSolidMade(t, made, solid, home, co);
    forall level: nat, p | level < NBYTS ensures Reach(r, level, p) == Reach(t, level, p) {
      SamePtrs(t, r, level, p);
    }
    assert forall c: nat :: c < SPELLED ==> ColorAt(r, c) == ColorAt(t, c);
  }

  lemma AddedSolidMade(t: Tree, made: nat, solid: Blocks, home: Homes, co: nat)
    requires TreeOk(t, made, solid, home) && co !in solid
    ensures TreeOk(WithSolid(t, made, co), made + 1, solid[co := made], home)
  {
    var r := WithSolid(t, made, co);
    var more := solid[co := made];
    forall x | x in more ensures IsSolid(r, more[x], x) {
      if x != co {
        assert IsSolid(t, solid[x], x);
      }
    }
    forall n: Name, b: nat | n in r.ptrs && b < BYTTAB ensures Exists(r, n.level + 1, r.ptrs[n][b]) {
      assert Exists(t, n.level + 1, t.ptrs[n][b]);
    }
    forall x | x in solid.Values ensures x in more.Values {
      var k :| k in solid && solid[k] == x;
      assert more[k] == x;
    }
    forall n: Name, b: nat | n in r.ptrs && b < BYTTAB && !Shared(more, n.level + 1, r.ptrs[n][b])
      ensures Lives(home, n, b, r.ptrs[n][b])
    {
      assert Lives(home, n, b, t.ptrs[n][b]);
    }
    forall n | n in r.ptrs && n.no != 0 ensures Housed(r, home, n) {
      assert Housed(t, home, n);
    }
  }

  lemma {:induction false} SamePtrs(t: Tree, r: Tree, level: nat, p: nat)
    requires Closed(t) && Closed(r) && level < NBYTS && r.ptrs == t.ptrs
    ensures Reach(r, level, p) == Reach(t, level, p)
  {
    if level > 0 {
      SamePtrs(t, r, level - 1, p / BYTTAB);
    }
  }

  /** Putting a colour's solid block in a slot recolours the block of characters below. */
  lemma SolidSlot(t: Tree, made: nat, solid: Blocks, home: Homes, c: nat, co: nat, n: Name)
    requires TreeOk(t, made, solid, home) && c + BYTTAB <= SPELLED && c % BYTTAB == 0 && co in solid
    requires n == Name(NBYTS - 2, Reach(t, NBYTS - 2, c / BYTTAB / BYTTAB)) && n.no != 0
    ensures var r := SetSlot(t, n, c / BYTTAB % BYTTAB, solid[co]);
            && TreeOk(r, made, solid, home[Name(NBYTS - 1, solid[co]) := (n.no, c / BYTTAB % BYTTAB)])
            && forall d: nat :: d < SPELLED ==> Painting(r)[d] == if c <= d < c + BYTTAB then co else Painting(t)[d]
  {
    var r := SetSlot(t, n, c / BYTTAB % BYTTAB, solid[co]);
    SlotSetWellMade(t, solid, home, n, c / BYTTAB % BYTTAB, solid[co], r);
    SlotColors(t, solid, home, c, r, solid[co]);
    assert IsSolid(r, solid[co], co);
    forall d: nat | d < SPELLED ensures ColorAt(r, d) == if c <= d < c + BYTTAB then co else ColorAt(t, d) {
      assert c <= d < c + BYTTAB <==> d / BYTTAB == c / BYTTAB;
    }
  }

  /** A block that the last pointer level holds colours some character. */
  lemma HeldColors(t: Tree, solid: Blocks, home: Homes, n: Name, b: nat) returns (c: nat)
    requires WellMade(t, solid, home) && n in t.ptrs && n.level == NBYTS - 2 && n.no != 0 && b < BYTTAB
    ensures c < SPELLED && ColorAt(t, c) == t.colors[t.ptrs[n][b]][0]
  {
    var p := SomeWay(t, solid, home, n);
    SpanValues();
    var q := p * BYTTAB + b;
    assert q / BYTTAB == p && q % BYTTAB == b;
    c := q * BYTTAB;
    assert c / BYTTAB == q && c % BYTTAB == 0;
  }

  /** No slot holds the solid block of a colour that no character has. */
  lemma NotHeld(t: Tree, solid: Blocks, home: Homes, co: nat, n: Name, b: nat)
    requires WellMade(t, solid, home) && co in solid && co != WHITE
    requires forall c: nat :: c < SPELLED ==> ColorAt(t, c) != co
    requires n in t.ptrs && n.level == NBYTS - 2 && b < BYTTAB
    ensures t.ptrs[n][b] != solid[co]
  {
    if t.ptrs[n][b] == solid[co] {
      assert IsSolid(t, solid[co], co) && IsSolid(t, solid[WHITE], WHITE);
      assert t.colors[solid[co]][0] == co && t.colors[solid[WHITE]][0] == WHITE;
      if n.no != 0 {
        var c := HeldColors(t, solid, home, n, b);
      }
      assert false;
    }
  }

  function WithoutSolid(t: Tree, k: nat): Tree {
    Tree(t.ptrs, t.colors - {k})
  }

  /** Freeing the solid block of a colour that no character has leaves no dangling pointer. */
  lemma FreedSolid(t: Tree, made: nat, solid: Blocks, home: Homes, co: nat)
    requires TreeOk(t, made, solid, home) && co in solid && co != WHITE
    requires forall c: nat :: c < SPELLED ==> ColorAt(t, c) != co
    ensures var r := WithoutSolid(t, solid[co]);
            TreeOk(r, made, solid - {co}, home) && Painting(r) == Painting(t)
  {
    var r := WithoutSolid(t, solid[co]);
    FreedSolidMade(t, made, solid, home, co);
    forall c: nat | c < SPELLED ensures ColorAt(r, c) == ColorAt(t, c) {
      SamePtrs(t, r, NBYTS - 1, c / BYTTAB);
    }
  }

  lemma FreedSolidMade(t: Tree, made: nat, solid: Blocks, home: Homes, co: nat)
    requires TreeOk(t, made, solid, home) && co in solid && co != WHITE
    requires forall c: nat :: c < SPELLED ==> ColorAt(t, c) != co
    ensures TreeOk(WithoutSolid(t, solid[co]), made, solid - {co}, home)
  {
    var r := WithoutSolid(t, solid[co]);
    var less := solid - {co};
    forall n: Name, b: nat | n in t.ptrs && n.level == NBYTS - 2 && b < BYTTAB ensures t.ptrs[n][b] != solid[co] {
      NotHeld(t, solid, home, co, n, b);
    }
    forall n: Name, b: nat | n in r.ptrs && b < BYTTAB ensures Exists(r, n.level + 1, r.ptrs[n][b]) {
      assert Exists(t, n.level + 1, t.ptrs[n][b]);
    }
    assert Closed(r);
    forall x | x in less ensures IsSolid(r, less[x], x) {
      assert IsSolid(t, solid[x], x) && IsSolid(t, solid[co], co);
      assert t.colors[solid[co]][0] == co;
    }
    FreedHomes(t, solid, home, co, r);
  }

  lemma FreedHomes(t: Tree, solid: Blocks, home: Homes, co: nat, r: Tree)
    requires Closed(t) && Closed(r) && Owned(t, solid, home) && co in solid && r == WithoutSolid(t, solid[co])
    requires forall n: Name, b: nat :: n in t.ptrs && n.level == NBYTS - 2 && b < BYTTAB ==> t.ptrs[n][b] != solid[co]
    ensures Owned(r, solid - {co}, home)
  {
    var less := solid - {co};
    forall x | x in solid.Values && x != solid[co] ensures x in less.Values {
      var k :| k in solid && solid[k] == x;
      assert k in less && less[k] == x;
    }
    forall n: Name, b: nat | n in r.ptrs && b < BYTTAB && !Shared(less, n.level + 1, r.ptrs[n][b])
      ensures Lives(home, n, b, r.ptrs[n][b])
    {
      assert Lives(home, n, b, t.ptrs[n][b]);
    }
    forall n | n in r.ptrs && n.no != 0 ensures Housed(r, home, n) {
      assert Housed(t, home, n);
    }
  }
}
