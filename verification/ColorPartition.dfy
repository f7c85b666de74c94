/**
 * How the colours partition the characters, and how the partition is refined:
 * characters are taken out of full colours into open subcolours.
 */
module ColorPartition {
  import opened ColorTree
  import opened ColorTable

  /**
   * paint has the colour of every character; full are the colours there were
   * when subcolours were last promoted, was the colour each character had
   * then, and taken the characters asked for since.
   */
  datatype Coloring = Coloring(
    paint: seq<nat>, cd: seq<Desc>, max: nat, full: set<nat>, was: seq<nat>, taken: set<nat>)

  /** A colour counts its characters. */
  ghost predicate Counted(g: Coloring) {
    |g.paint| == SPELLED &&
    forall co: nat :: Real(g.cd, g.max, co) ==> g.cd[co].nchrs == multiset(g.paint[..NCHRS])[co]
  }

  /**
   * A character taken has its former colour's open subcolour, one not taken
   * its former colour. A taken character whose colour was not split had that
   * colour to itself.
   */
  ghost predicate Grouped(g: Coloring) {
    && |g.paint| == SPELLED && |g.was| == SPELLED
    && (forall c :: c in g.taken ==> c < NCHRS)
    && (forall c :: 0 <= c < SPELLED ==> g.was[c] in g.full && Real(g.cd, g.max, g.was[c]) && g.cd[g.was[c]].sub >= NOSUB)
    && (forall c :: NCHRS <= c < SPELLED ==> g.was[c] == WHITE)
    && (forall c :: 0 <= c < SPELLED ==>
          g.paint[c] == if c in g.taken then Target(g.cd, g.was[c]) else g.was[c])
    && (forall c, d: nat :: c in g.taken && d < NCHRS && g.was[d] == g.was[c] && g.cd[g.was[c]].sub == NOSUB ==> c == d)
  }

  /** No open subcolour of a colour other than co is empty. */
  ghost predicate Touched(g: Coloring, co: int)
    requires Grouped(g)
  {
    forall k :: k in g.full && k < |g.cd| && g.cd[k].sub != NOSUB && k != co ==> SomeTaken(g, k)
  }

  ghost predicate SomeTaken(g: Coloring, k: nat)
    requires Grouped(g)
  {
    exists c :: c in g.taken && g.was[c] == k
  }

  /** No full colour but white was empty. */
  ghost predicate Peopled(g: Coloring)
    requires Grouped(g)
  {
    forall k :: k in g.full && Real(g.cd, g.max, k) && k != WHITE ==> exists c: nat :: c < NCHRS && g.was[c] == k
  }

  ghost predicate Sound(g: Coloring) {
    SubsOk(g.cd, g.max, g.full) && Grouped(g) && Counted(g) && Touched(g, -1) && Peopled(g)
  }

  // ---------------------------------------------------------------- counting

  lemma {:induction false} CountNone(s: seq<nat>, co: nat)
    requires forall i :: 0 <= i < |s| ==> s[i] != co
    ensures multiset(s)[co] == 0
  {
    assert co !in s;
  }

  /** A colour that only character c has is counted once. */
  lemma CountOne(s: seq<nat>, c: nat)
    requires c < |s| && forall d :: 0 <= d < |s| && s[d] == s[c] ==> d == c
    ensures multiset(s)[s[c]] == 1
  {
    assert s == s[..c] + [s[c]] + s[c + 1..];
    CountNone(s[..c], s[c]);
    CountNone(s[c + 1..], s[c]);
  }

  lemma CountTwo(s: seq<nat>, c: nat, d: nat)
    requires c < d < |s| && s[c] == s[d]
    ensures multiset(s)[s[c]] >= 2
  {
    assert s == s[..d] + [s[d]] + s[d + 1..];
    assert s[..d][c] == s[c];
  }

  lemma {:induction false} CountAll(s: seq<nat>, co: nat)
    requires forall i :: 0 <= i < |s| ==> s[i] == co
    ensures multiset(s)[co] == |s| && forall k: nat :: k != co ==> multiset(s)[k] == 0
  {
    if s != [] {
      CountAll(s[1..], co);
      assert s == [s[0]] + s[1..];
    }
  }

  /** The painting with the characters from a up to b given the colour co. */
  function Recolored(paint: seq<nat>, a: nat, b: nat, co: nat): (r: seq<nat>)
    requires a <= b <= |paint|
    ensures |r| == |paint| && forall c :: 0 <= c < |r| ==> r[c] == if a <= c < b then co else paint[c]
  {
    paint[..a] + seq(b - a, _ => co) + paint[b..]
  }

  /** Recolouring a run moves its length from the one colour's count to the other's. */
  lemma RecoloredCount(paint: seq<nat>, a: nat, b: nat, co: nat, sco: nat)
    requires a <= b <= NCHRS <= |paint| && forall c :: a <= c < b ==> paint[c] == co
    ensures var s, r := multiset(paint[..NCHRS]), multiset(Recolored(paint, a, b, sco)[..NCHRS]);
            && (forall k: nat :: k != co && k != sco ==> r[k] == s[k])
            && s[co] >= b - a
            && (co != sco ==> r[co] == s[co] - (b - a) && r[sco] == s[sco] + (b - a))
            && (co == sco ==> r[co] == s[co])
  {
    var q := Recolored(paint, a, b, sco);
    assert paint[..NCHRS] == paint[..a] + paint[a..b] + paint[b..NCHRS];
    assert q[..NCHRS] == paint[..a] + q[a..b] + paint[b..NCHRS];
    CountAll(paint[a..b], co);
    CountAll(q[a..b], sco);
  }

  // ---------------------------------------------------------------- opening a subcolour

  /** The subcolour chosen for a colour: its open one, or itself when its one character need not be split off. */
  ghost predicate Chosen(cd: seq<Desc>, co: nat, sco: nat) {
    co < |cd| && cd[co].sub >= NOSUB && sco == Target(cd, co) && (cd[co].sub == NOSUB ==> cd[co].nchrs == 1)
  }

  lemma PaintReal(g: Coloring, c: nat)
    requires Grouped(g) && SubsOk(g.cd, g.max, g.full) && c < SPELLED
    ensures Real(g.cd, g.max, g.paint[c])
  {
    assert SubOk(g.cd, g.max, g.full, g.was[c]);
  }

  /** A character that has a full colour had it before. */
  lemma FullWas(g: Coloring, c: nat)
    requires Grouped(g) && SubsOk(g.cd, g.max, g.full) && c < SPELLED && g.paint[c] in g.full
    ensures g.was[c] == g.paint[c] && (c in g.taken ==> g.cd[g.paint[c]].sub == NOSUB)
  {
    assert SubOk(g.cd, g.max, g.full, g.was[c]);
  }

  /** No taken character has a full colour that has several characters. */
  lemma NoneTaken(g: Coloring, co: nat, c: nat)
    requires Grouped(g) && SubsOk(g.cd, g.max, g.full) && Counted(g) && co in g.full && Real(g.cd, g.max, co)
    requires g.cd[co].sub == NOSUB && g.cd[co].nchrs != 1 && c in g.taken
    ensures g.was[c] != co
  {
    if g.was[c] == co {
      forall d | 0 <= d < NCHRS && g.paint[..NCHRS][d] == co ensures d == c {
        FullWas(g, d);
      }
      CountOne(g.paint[..NCHRS], c);
      assert false;
    }
  }

  /** The colour of a character: a full one, or an open subcolour that points to itself. */
  lemma ColorSub(g: Coloring, c: nat)
    requires Sound(g) && c < SPELLED
    ensures var co := g.paint[c];
            && Real(g.cd, g.max, co) && g.cd[co].sub >= NOSUB
            && (g.cd[co].sub == NOSUB ==> co in g.full)
            && (g.cd[co].sub != NOSUB ==> Real(g.cd, g.max, g.cd[co].sub))
  {
    PaintReal(g, c);
    assert SubOk(g.cd, g.max, g.full, g.paint[c]);
  }

  lemma SoundPending(g: Coloring, co: nat)
    requires Sound(g)
    ensures SubsOk(g.cd, g.max, g.full) && Grouped(g) && Counted(g) && Touched(g, co) && Peopled(g)
  {
  }

  /** Opening a subcolour, still empty, for a colour with several characters. */
  lemma Opened(g: Coloring, co: nat, sub: nat, h: Coloring)
    requires Sound(g) && co in g.full && Real(g.cd, g.max, co) && g.cd[co].sub == NOSUB && g.cd[co].nchrs != 1
    requires h == g.(cd := h.cd, max := h.max) && SubsOk(h.cd, h.max, h.full)
    requires OnlyOpened(g.cd, g.max, co, h.cd, h.max, sub)
    ensures Grouped(h) && Counted(h) && Touched(h, co) && Peopled(h)
  {
    hide SubsOk, Counted, Grouped, Touched, Peopled;
    OpenedGrouped(g, co, sub, h);
    OpenedCounted(g, co, sub, h);
    OpenedTouched(g, co, sub, h);
  }

  lemma OpenedGrouped(g: Coloring, co: nat, sub: nat, h: Coloring)
    requires SubsOk(g.cd, g.max, g.full) && Grouped(g) && Counted(g)
    requires co in g.full && Real(g.cd, g.max, co) && g.cd[co].sub == NOSUB && g.cd[co].nchrs != 1
    requires h == g.(cd := h.cd, max := h.max) && OnlyOpened(g.cd, g.max, co, h.cd, h.max, sub)
    ensures Grouped(h)
  {
    forall c | c in g.taken ensures g.was[c] != co {
      NoneTaken(g, co, c);
    }
  }

  lemma OpenedCounted(g: Coloring, co: nat, sub: nat, h: Coloring)
    requires SubsOk(g.cd, g.max, g.full) && Grouped(g) && Counted(g) && h.paint == g.paint
    requires OnlyOpened(g.cd, g.max, co, h.cd, h.max, sub) && Real(g.cd, g.max, co)
    ensures Counted(h)
  {
    forall c | 0 <= c < NCHRS ensures g.paint[..NCHRS][c] != sub {
      PaintReal(g, c);
    }
    CountNone(g.paint[..NCHRS], sub);
  }

  lemma OpenedTouched(g: Coloring, co: nat, sub: nat, h: Coloring)
    requires Sound(g) && Grouped(h) && h == g.(cd := h.cd, max := h.max)
    requires OnlyOpened(g.cd, g.max, co, h.cd, h.max, sub) && Real(g.cd, g.max, co)
    ensures Touched(h, co) && Peopled(h)
  {
    forall k | k in h.full && k < |h.cd| && h.cd[k].sub != NOSUB && k != co ensures SomeTaken(h, k) {
      assert InUse(g.cd, g.max, k) && SomeTaken(g, k);
      var c :| c in g.taken && g.was[c] == k;
      assert c in h.taken && h.was[c] == k;
    }
    forall k | k in h.full && Real(h.cd, h.max, k) && k != WHITE ensures exists c: nat :: c < NCHRS && h.was[c] == k {
      assert InUse(g.cd, g.max, k);
      var c: nat :| c < NCHRS && g.was[c] == k;
      assert h.was[c] == k;
    }
  }

  // ---------------------------------------------------------------- taking characters

  ghost function Run(a: nat, b: int): (s: set<nat>)
    ensures forall c :: c in s <==> a <= c < b
    decreases b - a
  {
    if a >= b then {} else Run(a, b - 1) + {b - 1}
  }

  /** The table with n characters' worth moved from one count to another. */
  ghost function Moved(cd: seq<Desc>, co: nat, sco: nat, n: nat): (ce: seq<Desc>)
    requires co < |cd| && sco < |cd| && cd[co].nchrs >= n
    ensures |ce| == |cd| && forall k: nat :: k < |cd| ==> ce[k] == cd[k].(nchrs := ce[k].nchrs)
    ensures co == sco ==> ce == cd
  {
    var less := cd[co := cd[co].(nchrs := cd[co].nchrs - n)];
    less[sco := less[sco].(nchrs := less[sco].nchrs + n)]
  }

  /** The state after the run from a up to b, all of colour co, went to the colour sco. */
  ghost function Took(g: Coloring, a: nat, b: nat, co: nat, sco: nat): Coloring
    requires a <= b <= |g.paint| && co < |g.cd| && sco < |g.cd| && g.cd[co].nchrs >= b - a
  {
    g.(paint := Recolored(g.paint, a, b, sco), cd := Moved(g.cd, co, sco, b - a), taken := g.taken + Run(a, b))
  }

  lemma TookSubs(g: Coloring, a: nat, b: nat, co: nat, sco: nat)
    requires SubsOk(g.cd, g.max, g.full) && Grouped(g)
    requires a <= b <= NCHRS && co < |g.cd| && sco < |g.cd| && g.cd[co].nchrs >= b - a
    ensures var h := Took(g, a, b, co, sco);
            && SubsOk(h.cd, h.max, h.full) && |h.cd| == |g.cd|
            && (forall k: nat :: k < |g.cd| ==> h.cd[k] == g.cd[k].(nchrs := h.cd[k].nchrs))
            && (forall k: nat :: Real(h.cd, h.max, k) == Real(g.cd, g.max, k))
  {
    var h := Took(g, a, b, co, sco);
    RecountedSubs(g.cd, h.cd, g.max, g.full);
  }

  /** Subcolours do not depend on counts. */
  lemma RecountedSubs(cd: seq<Desc>, ce: seq<Desc>, max: nat, full: set<nat>)
    requires SubsOk(cd, max, full) && |ce| == |cd|
    requires forall k: nat :: k < |cd| ==> ce[k] == cd[k].(nchrs := ce[k].nchrs)
    ensures SubsOk(ce, max, full)
  {
    forall k: nat | InUse(ce, max, k) ensures SubOk(ce, max, full, k) {
      assert SubOk(cd, max, full, k);
      if k !in full {
        var p :| IsParent(cd, full, p, k);
        assert IsParent(ce, full, p, k);
      }
    }
  }

  /** A character that is taken already stays what it is. */
  lemma TakenStays(g: Coloring, co: nat, sco: nat, c: nat)
    requires SubsOk(g.cd, g.max, g.full) && Grouped(g) && Chosen(g.cd, co, sco)
    requires c in g.taken && g.paint[c] == co
    ensures sco == co
  {
    PaintReal(g, c);
    assert SubOk(g.cd, g.max, g.full, co);
    if co in g.full {
      FullWas(g, c);
    }
  }

  /** Only one character has a colour that was chosen for itself without being split. */
  lemma ChosenAlone(g: Coloring, co: nat, c: nat, d: nat)
    requires Grouped(g) && Counted(g) && Real(g.cd, g.max, co) && g.cd[co].nchrs == 1
    requires c < NCHRS && d < NCHRS && g.paint[c] == co && g.paint[d] == co
    ensures c == d
  {
    if c < d {
      CountTwo(g.paint[..NCHRS], c, d);
    } else if d < c {
      CountTwo(g.paint[..NCHRS], d, c);
    }
  }

  /** Taking one character. */
  lemma TookOne(g: Coloring, c: nat, co: nat, sco: nat)
    requires c < |g.paint| && g.paint[c] == co && co < |g.cd| && sco < |g.cd| && g.cd[co].nchrs >= 1
    ensures Took(g, c, c + 1, co, sco) ==
      g.(paint := Put(g.paint, c, sco), cd := Moved(g.cd, co, sco, 1), taken := g.taken + {c})
    ensures co == sco ==> Put(g.paint, c, sco) == g.paint
  {
    assert Run(c, c + 1) == {c};
    assert Recolored(g.paint, c, c + 1, sco) == Put(g.paint, c, sco);
  }

  lemma TookCounted(g: Coloring, a: nat, b: nat, co: nat, sco: nat)
    requires SubsOk(g.cd, g.max, g.full) && Grouped(g) && Counted(g)
    requires a < b <= NCHRS && (forall c :: a <= c < b ==> g.paint[c] == co) && Chosen(g.cd, co, sco) && sco < |g.cd|
    ensures g.cd[co].nchrs >= b - a && Counted(Took(g, a, b, co, sco))
  {
    PaintReal(g, a);
    RecoloredCount(g.paint, a, b, co, sco);
    TookSubs(g, a, b, co, sco);
  }

  /** Taking a run of characters of one colour. */
  lemma TookSound(g: Coloring, a: nat, b: nat, co: nat, sco: nat)
    requires SubsOk(g.cd, g.max, g.full) && Grouped(g) && Counted(g) && Peopled(g) && Touched(g, co)
    requires a < b <= NCHRS && (forall c :: a <= c < b ==> g.paint[c] == co) && Chosen(g.cd, co, sco)
    ensures sco < |g.cd| && g.cd[co].nchrs >= b - a && Sound(Took(g, a, b, co, sco))
    ensures forall c :: c in g.taken ==> Took(g, a, b, co, sco).paint[c] == g.paint[c]
  {
    hide SubsOk, Counted;
    ChosenInTable(g, a, co, sco);
    TookCounted(g, a, b, co, sco);
    TookSubs(g, a, b, co, sco);
    forall c | c in g.taken ensures Took(g, a, b, co, sco).paint[c] == g.paint[c] {
      if a <= c < b {
        TakenStays(g, co, sco, c);
      }
    }
    TookGrouped(g, a, b, co, sco);
    TookTouched(g, a, b, co, sco);
  }

  lemma ChosenInTable(g: Coloring, a: nat, co: nat, sco: nat)
    requires SubsOk(g.cd, g.max, g.full) && Grouped(g) && a < SPELLED && g.paint[a] == co && Chosen(g.cd, co, sco)
    ensures sco < |g.cd|
  {
    PaintReal(g, a);
    assert SubOk(g.cd, g.max, g.full, co);
  }

  lemma TookGrouped(g: Coloring, a: nat, b: nat, co: nat, sco: nat)
    requires SubsOk(g.cd, g.max, g.full) && Grouped(g) && Counted(g)
    requires a < b <= NCHRS && (forall c :: a <= c < b ==> g.paint[c] == co) && Chosen(g.cd, co, sco)
    requires sco < |g.cd| && g.cd[co].nchrs >= b - a
    ensures Grouped(Took(g, a, b, co, sco))
  {
    var h := Took(g, a, b, co, sco);
    TookSubs(g, a, b, co, sco);
    forall c | 0 <= c < SPELLED
      ensures h.paint[c] == if c in h.taken then Target(h.cd, h.was[c]) else h.was[c]
    {
      if a <= c < b {
        TakenColor(g, co, sco, c);
      }
    }
    forall c, d: nat | c in h.taken && d < NCHRS && h.was[d] == h.was[c] && h.cd[h.was[c]].sub == NOSUB ensures c == d {
      if c !in g.taken && d !in g.taken {
        ChosenAlone(g, co, c, d);
      }
    }
  }

  /** The chosen subcolour is the target of the colour that the character had. */
  lemma TakenColor(g: Coloring, co: nat, sco: nat, c: nat)
    requires SubsOk(g.cd, g.max, g.full) && Grouped(g) && Chosen(g.cd, co, sco)
    requires c < NCHRS && g.paint[c] == co
    ensures sco == Target(g.cd, g.was[c])
  {
    PaintReal(g, c);
    assert SubOk(g.cd, g.max, g.full, co);
    assert SubOk(g.cd, g.max, g.full, g.was[c]);
  }

  lemma TookTouched(g: Coloring, a: nat, b: nat, co: nat, sco: nat)
    requires SubsOk(g.cd, g.max, g.full) && Grouped(g) && Peopled(g) && Touched(g, co)
    requires a < b <= NCHRS && (forall c :: a <= c < b ==> g.paint[c] == co) && Chosen(g.cd, co, sco)
    requires sco < |g.cd| && g.cd[co].nchrs >= b - a && Grouped(Took(g, a, b, co, sco))
    ensures Touched(Took(g, a, b, co, sco), -1) && Peopled(Took(g, a, b, co, sco))
  {
    var h := Took(g, a, b, co, sco);
    TookSubs(g, a, b, co, sco);
    forall k | k in h.full && k < |h.cd| && h.cd[k].sub != NOSUB ensures SomeTaken(h, k) {
      if k == co {
        FullWas(g, a);
        assert a in h.taken && h.was[a] == co;
      } else {
        assert SomeTaken(g, k);
        var c :| c in g.taken && g.was[c] == k;
        assert c in h.taken;
      }
    }
  }

  /** Characters taken stay as they are, and the partition they are taken from does not change. */
  ghost predicate Keeps(g: Coloring, h: Coloring) {
    && h.full == g.full && h.was == g.was && g.taken <= h.taken && |h.paint| == |g.paint|
    && forall c :: c in g.taken && c < |g.paint| ==> h.paint[c] == g.paint[c]
  }

  /** The partition does not depend on which colours have blocks. */
  lemma BlockChanged(g: Coloring, co: nat, k: nat, block: int)
    requires SubsOk(g.cd, g.max, g.full) && Grouped(g) && Counted(g) && Touched(g, co) && Peopled(g) && k < |g.cd|
    ensures var h := g.(cd := g.cd[k := g.cd[k].(block := block)]);
            SubsOk(h.cd, h.max, h.full) && Grouped(h) && Counted(h) && Touched(h, co) && Peopled(h)
  {
    var h := g.(cd := g.cd[k := g.cd[k].(block := block)]);
    hide SubsOk, Counted, Grouped, Touched, Peopled;
    BlockSubs(g, k, block);
    BlockGrouped(g, k, block);
    BlockTouched(g, h, co);
  }

  lemma BlockGrouped(g: Coloring, k: nat, block: int)
    requires Grouped(g) && Counted(g) && k < |g.cd|
    ensures var h := g.(cd := g.cd[k := g.cd[k].(block := block)]);
            Grouped(h) && Counted(h) && forall x: nat :: Real(h.cd, h.max, x) == Real(g.cd, g.max, x)
  {
  }

  lemma BlockSubs(g: Coloring, k: nat, block: int)
    requires SubsOk(g.cd, g.max, g.full) && k < |g.cd|
    ensures SubsOk(g.cd[k := g.cd[k].(block := block)], g.max, g.full)
  {
    var ce := g.cd[k := g.cd[k].(block := block)];
    forall x: nat | InUse(ce, g.max, x) ensures SubOk(ce, g.max, g.full, x) {
      assert SubOk(g.cd, g.max, g.full, x);
      if x !in g.full {
        var p :| IsParent(g.cd, g.full, p, x);
        assert IsParent(ce, g.full, p, x);
      }
    }
  }

  lemma BlockTouched(g: Coloring, h: Coloring, co: nat)
    requires Grouped(g) && Grouped(h) && Touched(g, co) && Peopled(g)
    requires h == g.(cd := h.cd) && |h.cd| == |g.cd|
    requires forall x: nat :: x < |g.cd| ==> h.cd[x].sub == g.cd[x].sub && Real(h.cd, h.max, x) == Real(g.cd, g.max, x)
    ensures Touched(h, co) && Peopled(h)
  {
    forall x | x in h.full && x < |h.cd| && h.cd[x].sub != NOSUB && x != co ensures SomeTaken(h, x) {
      assert SomeTaken(g, x);
      var c :| c in g.taken && g.was[c] == x;
      assert c in h.taken && h.was[c] == x;
    }
    forall x | x in h.full && Real(h.cd, h.max, x) && x != WHITE ensures exists c: nat :: c < NCHRS && h.was[c] == x {
      var c: nat :| c < NCHRS && g.was[c] == x;
      assert h.was[c] == x;
    }
  }
}
