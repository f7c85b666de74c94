/** Which short jumps the assembler must lengthen, and where that puts the basic blocks. */
module JumpRelaxation {

  datatype Option<T> = None | Some(value: T)

  /** A basic block, in the order of the code. */
  datatype Block = Block(
    originalStart: nat, start: int, jumpOffset: int, jumpTarget: Option<string>, jump1: bool, jumpTable: seq<string>)

  type Labels = map<string, nat>

  /** All the labels that the blocks mention are defined. */
  ghost predicate Defined(labels: Labels, bs: seq<Block>) {
    forall i :: 0 <= i < |bs| ==> DefinedIn(labels, bs[i], |bs|)
  }

  ghost predicate DefinedIn(labels: Labels, b: Block, n: nat) {
    (b.jumpTarget.Some? ==> b.jumpTarget.value in labels) && forall j :: 0 <= j < |b.jumpTable| ==> b.jumpTable[j] in labels
  }

  /** Labels are on blocks. */
  ghost predicate OnBlocks(labels: Labels, n: nat) {
    forall l :: l in labels ==> labels[l] < n
  }

  /** How many jumps are short. */
  ghost function Shorts(bs: seq<Block>): nat {
    if bs == [] then 0 else Shorts(bs[..|bs| - 1]) + if bs[|bs| - 1].jump1 then 1 else 0
  }

  // ---------------------------------------------------------------- one pass, block by block

  /** Where the jump of block b is, as the pass sees it: with the motion of this pass only. */
  ghost function Offset(labels: Labels, bs: seq<Block>, b: Block, motion: int): int
    requires OnBlocks(labels, |bs|) && b.jumpTarget.Some? && b.jumpTarget.value in labels
  {
    bs[labels[b.jumpTarget.value]].start - (b.jumpOffset + motion)
  }

  ghost predicate InByte(offset: int) {
    -0x80 <= offset <= 0x7F
  }

  /** Block i moved up by motion. */
  ghost function MovedUp(bs: seq<Block>, i: nat, motion: int): (r: seq<Block>)
    requires i < |bs|
    ensures |r| == |bs|
  {
    bs[i := bs[i].(start := bs[i].start + motion)]
  }

  ghost predicate MustGrow(labels: Labels, bs: seq<Block>, i: nat, motion: int)
    requires i < |bs| && OnBlocks(labels, |bs|) && Defined(labels, bs)
  {
    var b := bs[i];
    assert DefinedIn(labels, b, |bs|);
    b.jump1 && b.jumpTarget.Some? && !InByte(Offset(labels, bs, b, motion))
  }

  /** The blocks after a pass has gone over block i, and whether its jump grew. */
  ghost function Visited(labels: Labels, bs: seq<Block>, i: nat, motion: int): (r: seq<Block>)
    requires i < |bs| && OnBlocks(labels, |bs|) && Defined(labels, bs)
    ensures |r| == |bs| && Defined(labels, r)
  {
    var moved := MovedUp(bs, i, motion);
    assert forall k :: 0 <= k < |bs| ==> DefinedIn(labels, bs[k], |bs|);
    assert Defined(labels, moved);
    if MustGrow(labels, moved, i, motion) then moved[i := moved[i].(jump1 := false)] else moved
  }

  ghost function MotionAfter(labels: Labels, bs: seq<Block>, i: nat, motion: int): int
    requires i < |bs| && OnBlocks(labels, |bs|) && Defined(labels, bs)
  {
    motion + if Visited(labels, bs, i, motion)[i].jump1 == bs[i].jump1 then 0 else 3
  }

  /** The rest of a pass, from block i. */
  ghost function Pass(labels: Labels, bs: seq<Block>, i: nat, motion: int): (r: (seq<Block>, int))
    requires i <= |bs| && OnBlocks(labels, |bs|) && Defined(labels, bs)
    ensures |r.0| == |bs| && Defined(labels, r.0)
    decreases |bs| - i
  {
    if i == |bs| then (bs, motion)
    else Pass(labels, Visited(labels, bs, i, motion), i + 1, MotionAfter(labels, bs, i, motion))
  }

  // ---------------------------------------------------------------- what a pass does

  /** From was to now only starts have moved and short jumps have grown. */
  ghost predicate Grown(was: seq<Block>, now: seq<Block>) {
    |now| == |was| && forall k :: 0 <= k < |was| ==> GrownBlock(was[k], now[k])
  }

  ghost predicate GrownBlock(b: Block, c: Block) {
    c == b.(start := c.start, jump1 := c.jump1) && (c.jump1 ==> b.jump1)
  }

  /** How far the jumps that grew before block i push it. */
  ghost function Growth(was: seq<Block>, now: seq<Block>, i: nat): (g: nat)
    requires i <= |was| == |now|
    ensures g <= 3 * i
  {
    if i == 0 then 0 else Growth(was, now, i - 1) + if was[i - 1].jump1 != now[i - 1].jump1 then 3 else 0
  }

  /** Every block has moved by what the jumps before it have grown. */
  ghost predicate Placed(was: seq<Block>, now: seq<Block>) {
    Grown(was, now) && forall k :: 0 <= k < |was| ==> now[k].start == was[k].start + Growth(was, now, k)
  }

  lemma {:induction false} GrowthSame(was: seq<Block>, now: seq<Block>, then_: seq<Block>, i: nat)
    requires i <= |was| == |now| == |then_|
    requires forall k :: 0 <= k < i ==> then_[k].jump1 == now[k].jump1
    ensures Growth(was, then_, i) == Growth(was, now, i)
  {
    if i > 0 {
      GrowthSame(was, now, then_, i - 1);
    }
  }

  /** Growth adds up over two steps. */
  lemma {:induction false} GrowthTwice(was: seq<Block>, now: seq<Block>, then_: seq<Block>, i: nat)
    requires i <= |was| && Grown(was, now) && Grown(now, then_)
    ensures Growth(was, then_, i) == Growth(was, now, i) + Growth(now, then_, i)
  {
    if i > 0 {
      GrowthTwice(was, now, then_, i - 1);
      assert GrownBlock(was[i - 1], now[i - 1]) && GrownBlock(now[i - 1], then_[i - 1]);
    }
  }

  lemma {:induction false} GrowthRises(was: seq<Block>, now: seq<Block>, i: nat, j: nat)
    requires i <= j <= |was| == |now|
    ensures Growth(was, now, i) <= Growth(was, now, j)
  {
    if i < j {
      GrowthRises(was, now, i, j - 1);
    }
  }

  /** Part way through a pass: the blocks before i are placed and those from i on are as they were. */
  ghost predicate PartWay(was: seq<Block>, now: seq<Block>, i: nat, motion: int) {
    && |now| == |was| && i <= |was| && motion == Growth(was, now, i)
    && (forall k :: 0 <= k < i ==> GrownBlock(was[k], now[k]) && now[k].start == was[k].start + Growth(was, now, k))
    && (forall k :: i <= k < |was| ==> now[k] == was[k])
  }

  lemma GrowthStep(was: seq<Block>, now: seq<Block>, i: nat)
    requires i < |was| == |now|
    ensures Growth(was, now, i + 1) == Growth(was, now, i) + if was[i].jump1 != now[i].jump1 then 3 else 0
  {
  }

  lemma PartWayBasics(was: seq<Block>, now: seq<Block>, i: nat, motion: int)
    requires PartWay(was, now, i, motion)
    ensures |now| == |was| && i <= |was|
    ensures i == |was| ==> Placed(was, now) && motion == Growth(was, now, |was|)
  {
  }

  lemma VisitedPartWay(labels: Labels, was: seq<Block>, now: seq<Block>, i: nat, motion: int)
    requires OnBlocks(labels, |was|) && Defined(labels, now) && PartWay(was, now, i, motion) && i < |was|
    ensures PartWay(was, Visited(labels, now, i, motion), i + 1, MotionAfter(labels, now, i, motion))
    ensures MotionAfter(labels, now, i, motion) >= motion
  {
    hide OnBlocks, MustGrow, Growth;
    GrowthStep(was, Visited(labels, now, i, motion), i);
    var next := Visited(labels, now, i, motion);
    forall k | 0 <= k <= i ensures Growth(was, next, k) == Growth(was, now, k) {
      GrowthSame(was, now, next, k);
    }
  }

  lemma {:induction false} PassPlaces(labels: Labels, was: seq<Block>, now: seq<Block>, i: nat, motion: int)
    requires OnBlocks(labels, |was|) && Defined(labels, now) && PartWay(was, now, i, motion)
    ensures var r := Pass(labels, now, i, motion);
            Placed(was, r.0) && r.1 == Growth(was, r.0, |was|) && r.1 >= motion
    decreases |was| - i
  {
    hide OnBlocks, Visited, MotionAfter, PartWay, Growth, Defined;
    PartWayBasics(was, now, i, motion);
    if i < |was| {
      VisitedPartWay(labels, was, now, i, motion);
      PassPlaces(labels, was, Visited(labels, now, i, motion), i + 1, MotionAfter(labels, now, i, motion));
    }
  }

  /** A pass that moves code leaves fewer short jumps. */
  lemma {:induction false} FewerShorts(was: seq<Block>, now: seq<Block>)
    requires Grown(was, now)
    ensures 3 * Shorts(now) + Growth(was, now, |was|) == 3 * Shorts(was)
  {
    if was != [] {
      var w, n := was[..|was| - 1], now[..|now| - 1];
      assert forall k :: 0 <= k < |w| ==> GrownBlock(was[k], now[k]);
      FewerShorts(w, n);
      GrowthPrefix(was, now, |w|);
      assert GrownBlock(was[|w|], now[|w|]);
    }
  }

  lemma {:induction false} GrowthPrefix(was: seq<Block>, now: seq<Block>, i: nat)
    requires i < |was| == |now|
    ensures Growth(was[..|was| - 1], now[..|now| - 1], i) == Growth(was, now, i)
  {
    if i > 0 {
      GrowthPrefix(was, now, i - 1);
    }
  }

  /** The whole relaxation: passes until one moves nothing. */
  ghost function Relax(labels: Labels, bs: seq<Block>): (r: (seq<Block>, int))
    requires OnBlocks(labels, |bs|) && Defined(labels, bs)
    ensures |r.0| == |bs| && Defined(labels, r.0)
    decreases Shorts(bs)
  {
    var p := Pass(labels, bs, 0, 0);
    PassPlaces(labels, bs, bs, 0, 0);
    FewerShorts(bs, p.0);
    if p.1 == 0 then p
    else
      var q := Relax(labels, p.0);
      (q.0, p.1 + q.1)
  }

  // ---------------------------------------------------------------- what relaxation achieves

  /** A pass that moves nothing found every short jump within a byte's reach. */
  lemma {:induction false} QuietPass(labels: Labels, bs: seq<Block>, i: nat)
    requires i <= |bs| && OnBlocks(labels, |bs|) && Defined(labels, bs) && Pass(labels, bs, i, 0).1 == 0
    ensures Pass(labels, bs, i, 0).0 == bs
    ensures forall k: nat :: i <= k < |bs| ==> !MustGrow(labels, bs, k, 0)
    decreases |bs| - i
  {
    if i < |bs| {
      assert MovedUp(bs, i, 0) == bs;
      if MustGrow(labels, bs, i, 0) {
        PassGrows(labels, Visited(labels, bs, i, 0), i + 1, 3);
      } else {
        QuietPass(labels, bs, i + 1);
      }
    }
  }

  lemma {:induction false} PassGrows(labels: Labels, bs: seq<Block>, i: nat, motion: int)
    requires i <= |bs| && OnBlocks(labels, |bs|) && Defined(labels, bs)
    ensures Pass(labels, bs, i, motion).1 >= motion
    decreases |bs| - i
  {
    if i < |bs| {
      PassGrows(labels, Visited(labels, bs, i, motion), i + 1, MotionAfter(labels, bs, i, motion));
    }
  }

  /**
   * In the end every block has moved by exactly three bytes for each jump
   * before it that grew, and the short jumps left passed the last pass's test.
   */
  lemma {:induction false} RelaxPlaces(labels: Labels, bs: seq<Block>)
    requires OnBlocks(labels, |bs|) && Defined(labels, bs)
    ensures var r := Relax(labels, bs);
            && Placed(bs, r.0) && r.1 == Growth(bs, r.0, |bs|)
            && forall k: nat :: k < |bs| ==> !MustGrow(labels, r.0, k, 0)
    decreases Shorts(bs)
  {
    var p := Pass(labels, bs, 0, 0);
    PassPlaces(labels, bs, bs, 0, 0);
    FewerShorts(bs, p.0);
    if p.1 == 0 {
      QuietPass(labels, bs, 0);
    } else {
      RelaxPlaces(labels, p.0);
      PlacedTwice(bs, p.0, Relax(labels, p.0).0);
    }
  }

  lemma PlacedTwice(was: seq<Block>, now: seq<Block>, then_: seq<Block>)
    requires Placed(was, now) && Placed(now, then_)
    ensures Placed(was, then_) && Growth(was, then_, |was|) == Growth(was, now, |was|) + Growth(now, then_, |was|)
  {
    forall k | 0 <= k <= |was| ensures Growth(was, then_, k) == Growth(was, now, k) + Growth(now, then_, k) {
      GrowthTwice(was, now, then_, k);
    }
    forall k | 0 <= k < |was| ensures GrownBlock(was[k], then_[k]) {
      assert GrownBlock(was[k], now[k]) && GrownBlock(now[k], then_[k]);
    }
  }

  /** Where block i ends, in code of the given length. */
  ghost function End(bs: seq<Block>, len: nat, i: nat): int
    requires i < |bs|
  {
    if i + 1 < |bs| then bs[i + 1].originalStart else len
  }

  /**
   * Code as the assembler emitted it: blocks follow one another, nothing has
   * moved, and a jump ends its block with an operand of one byte or four.
   */
  ghost predicate Emitted(bs: seq<Block>, len: nat) {
    && bs != [] && bs[0].originalStart == 0
    && (forall i :: 0 <= i < |bs| ==> EmittedBlock(bs, len, i))
  }

  ghost predicate EmittedBlock(bs: seq<Block>, len: nat, i: nat)
    requires i < |bs|
  {
    && bs[i].start == bs[i].originalStart <= End(bs, len, i)
    && (bs[i].jump1 ==> bs[i].jumpTarget.Some?)
    && (bs[i].jumpTarget.Some? ==>
          bs[i].originalStart <= bs[i].jumpOffset && bs[i].jumpOffset + JumpSize(bs[i]) == End(bs, len, i))
  }

  ghost function JumpSize(b: Block): nat {
    if b.jump1 then 2 else 5
  }

  lemma {:induction false} StartsRise(bs: seq<Block>, len: nat, i: nat, j: nat)
    requires Emitted(bs, len) && i < j < |bs|
    ensures End(bs, len, i) <= bs[j].originalStart <= len
  {
    assert EmittedBlock(bs, len, j) && EmittedBlock(bs, len, j - 1);
    if i + 1 < j {
      StartsRise(bs, len, i, j - 1);
    }
    EndsBelow(bs, len, j);
  }

  lemma {:induction false} EndsBelow(bs: seq<Block>, len: nat, i: nat)
    requires Emitted(bs, len) && i < |bs|
    ensures bs[i].originalStart <= End(bs, len, i) <= len
    decreases |bs| - i
  {
    assert EmittedBlock(bs, len, i);
    if i + 1 < |bs| {
      EndsBelow(bs, len, i + 1);
    }
  }

  /** How far a jump really goes once the code is moved. */
  ghost function Displacement(labels: Labels, r: seq<Block>, i: nat): int
    requires i < |r| && OnBlocks(labels, |r|) && r[i].jumpTarget.Some? && r[i].jumpTarget.value in labels
  {
    r[labels[r[i].jumpTarget.value]].start - (r[i].jumpOffset + (r[i].start - r[i].originalStart))
  }

  /**
   * A short jump that is left goes at most as far up as a signed byte allows;
   * down, it may miss by what the jumps before it have grown.
   */
  lemma ShortJumps(labels: Labels, bs: seq<Block>, len: nat, i: nat)
    requires OnBlocks(labels, |bs|) && Defined(labels, bs) && Emitted(bs, len) && i < |bs|
    requires Relax(labels, bs).0[i].jump1
    ensures var r := Relax(labels, bs).0;
            && r[i].jumpTarget.Some? && r[i].jumpTarget.value in labels
            && -0x80 - Growth(bs, r, i) <= Displacement(labels, r, i) <= 0x7F
            && (labels[r[i].jumpTarget.value] > i ==> InByte(Displacement(labels, r, i)))
  {
    var r := Relax(labels, bs).0;
    RelaxPlaces(labels, bs);
    assert GrownBlock(bs[i], r[i]) && EmittedBlock(bs, len, i) && DefinedIn(labels, r[i], |r|);
    assert !MustGrow(labels, r, i, 0);
    var t := labels[r[i].jumpTarget.value];
    if t > i {
      StartsRise(bs, len, i, t);
      GrowthRises(bs, r, i, t);
      assert GrownBlock(bs[t], r[t]) && EmittedBlock(bs, len, t);
    }
  }

  /** How many jumps are short in the blocks from t up to i. */
  ghost function ShortsIn(bs: seq<Block>, t: nat, i: nat): nat
    requires t <= i <= |bs|
  {
    if t == i then 0 else ShortsIn(bs, t, i - 1) + if bs[i - 1].jump1 then 1 else 0
  }

  lemma {:induction false} GrowthBetween(was: seq<Block>, now: seq<Block>, t: nat, i: nat)
    requires Grown(was, now) && t <= i <= |was|
    ensures 0 <= Growth(was, now, i) - Growth(was, now, t) <= 3 * ShortsIn(was, t, i)
  {
    if t < i {
      GrowthBetween(was, now, t, i - 1);
      assert GrownBlock(was[i - 1], now[i - 1]);
    }
  }

  /**
   * A short jump down the code that is left fits in a signed byte exactly if,
   * with what the jumps between its target and itself have grown, it is at
   * most 128 bytes from its target.
   */
  lemma ShortJumpsDown(labels: Labels, bs: seq<Block>, len: nat, i: nat)
    requires OnBlocks(labels, |bs|) && Defined(labels, bs) && Emitted(bs, len) && i < |bs|
    requires Relax(labels, bs).0[i].jump1
    ensures var r := Relax(labels, bs).0;
            && r[i].jumpTarget.Some? && r[i].jumpTarget.value in labels
            && var t := labels[r[i].jumpTarget.value];
            t <= i ==>
              (InByte(Displacement(labels, r, i)) <==>
               bs[i].jumpOffset - bs[t].originalStart + Growth(bs, r, i) - Growth(bs, r, t) <= 0x80)
  {
    var r := Relax(labels, bs).0;
    RelaxPlaces(labels, bs);
    ShortJumps(labels, bs, len, i);
    var t := labels[r[i].jumpTarget.value];
    assert GrownBlock(bs[i], r[i]) && EmittedBlock(bs, len, i) && GrownBlock(bs[t], r[t]) && EmittedBlock(bs, len, t);
  }

  /** Before relaxation: enough room for every short jump in between to grow. */
  lemma RoomDown(labels: Labels, bs: seq<Block>, len: nat, i: nat)
    requires OnBlocks(labels, |bs|) && Defined(labels, bs) && Emitted(bs, len) && i < |bs|
    requires Relax(labels, bs).0[i].jump1
    ensures bs[i].jumpTarget.Some? && bs[i].jumpTarget.value in labels
    ensures var t := labels[bs[i].jumpTarget.value];
            t <= i && bs[i].jumpOffset - bs[t].originalStart + 3 * ShortsIn(bs, t, i) <= 0x80 ==>
              var r := Relax(labels, bs).0;
              r[i].jumpTarget == bs[i].jumpTarget && InByte(Displacement(labels, r, i))
  {
    var r := Relax(labels, bs).0;
    RelaxPlaces(labels, bs);
    ShortJumpsDown(labels, bs, len, i);
    assert GrownBlock(bs[i], r[i]);
    var t := labels[bs[i].jumpTarget.value];
    if t <= i {
      GrowthBetween(bs, r, t, i);
    }
  }

  /** Short jumps down that the pass has gone over are within reach, whatever it has moved before them. */
  ghost predicate BackInReach(labels: Labels, was: seq<Block>, now: seq<Block>, i: nat)
    requires OnBlocks(labels, |now|) && |was| == |now| && i <= |was| && Defined(labels, now)
  {
    forall k: nat :: k < i && now[k].jump1 && now[k].jumpTarget.Some? ==> ReachesBack(labels, was, now, k)
  }

  ghost predicate ReachesBack(labels: Labels, was: seq<Block>, now: seq<Block>, k: nat)
    requires OnBlocks(labels, |now|) && |was| == |now| && k < |was|
  {
    now[k].jumpTarget.Some? && now[k].jumpTarget.value in labels &&
    var t := labels[now[k].jumpTarget.value];
    t <= k ==> InByte(now[t].start - (now[k].jumpOffset + Growth(was, now, k)))
  }

  lemma VisitedReaches(labels: Labels, was: seq<Block>, now: seq<Block>, i: nat, motion: int)
    requires OnBlocks(labels, |was|) && Defined(labels, now) && PartWay(was, now, i, motion) && i < |was|
    requires BackInReach(labels, was, now, i)
    ensures BackInReach(labels, was, Visited(labels, now, i, motion), i + 1)
  {
    var next := Visited(labels, now, i, motion);
    forall k: nat | k < i + 1 && next[k].jump1 && next[k].jumpTarget.Some? ensures ReachesBack(labels, was, next, k) {
      GrowthSame(was, now, next, k);
      assert DefinedIn(labels, next[k], |next|);
      if k < i {
        assert ReachesBack(labels, was, now, k);
      } else {
        assert !MustGrow(labels, MovedUp(now, i, motion), i, motion);
      }
    }
  }

  lemma {:induction false} PassReaches(labels: Labels, was: seq<Block>, now: seq<Block>, i: nat, motion: int)
    requires OnBlocks(labels, |was|) && Defined(labels, now) && PartWay(was, now, i, motion)
    requires BackInReach(labels, was, now, i)
    ensures var r := Pass(labels, now, i, motion).0; |r| == |was| && BackInReach(labels, was, r, |was|)
    decreases |was| - i
  {
    hide Visited, MotionAfter, BackInReach, Growth;
    if i < |was| {
      VisitedPartWay(labels, was, now, i, motion);
      VisitedReaches(labels, was, now, i, motion);
      PassReaches(labels, was, Visited(labels, now, i, motion), i + 1, MotionAfter(labels, now, i, motion));
    }
  }

  /** When only one pass moves code, every short jump that is left fits in a signed byte. */
  lemma OnePassFits(labels: Labels, bs: seq<Block>, len: nat, i: nat)
    requires OnBlocks(labels, |bs|) && Defined(labels, bs) && Emitted(bs, len) && i < |bs|
    requires var p := Pass(labels, bs, 0, 0); Pass(labels, p.0, 0, 0).1 == 0
    requires Relax(labels, bs).0[i].jump1
    ensures var r := Relax(labels, bs).0;
            r[i].jumpTarget.Some? && r[i].jumpTarget.value in labels && InByte(Displacement(labels, r, i))
  {
    var p := Pass(labels, bs, 0, 0).0;
    var r := Relax(labels, bs).0;
    QuietPass(labels, p, 0);
    QuietRelax(labels, bs);
    ShortJumps(labels, bs, len, i);
    RelaxPlaces(labels, bs);
    PassReaches(labels, bs, bs, 0, 0);
    assert EmittedBlock(bs, len, i) && GrownBlock(bs[i], r[i]) && ReachesBack(labels, bs, r, i);
  }

  lemma QuietRelax(labels: Labels, bs: seq<Block>)
    requires OnBlocks(labels, |bs|) && Defined(labels, bs)
    requires var p := Pass(labels, bs, 0, 0); Pass(labels, p.0, 0, 0).1 == 0
    ensures Relax(labels, bs).0 == Pass(labels, bs, 0, 0).0
  {
    hide Pass, Relax;
    var p := Pass(labels, bs, 0, 0);
    QuietPass(labels, p.0, 0);
    RelaxStep(labels, bs, p);
    RelaxStep(labels, p.0, Pass(labels, p.0, 0, 0));
  }

  /** Relaxation is one pass and, if that moved code, relaxation of what it left. */
  lemma RelaxStep(labels: Labels, bs: seq<Block>, p: (seq<Block>, int))
    requires OnBlocks(labels, |bs|) && Defined(labels, bs) && p == Pass(labels, bs, 0, 0)
    ensures p.1 == 0 ==> Relax(labels, bs) == p
    ensures p.1 != 0 ==> Relax(labels, bs) == (Relax(labels, p.0).0, p.1 + Relax(labels, p.0).1)
  {
    hide Pass, Defined, OnBlocks;
  }

  /** The distance of a jump that is short fits a byte before anything has moved. */
  ghost predicate FitsNow(labels: Labels, b: Block, bs: seq<Block>) {
    b.jump1 && b.jumpTarget.Some? ==>
      && b.jumpTarget.value in labels && labels[b.jumpTarget.value] < |bs|
      && -128 <= bs[labels[b.jumpTarget.value]].start - b.jumpOffset < 128
  }

  lemma {:induction false} NothingGrows(labels: Labels, bs: seq<Block>, i: nat)
    requires i <= |bs| && OnBlocks(labels, |bs|) && Defined(labels, bs)
    requires forall k: nat :: i <= k < |bs| ==> FitsNow(labels, bs[k], bs)
    ensures Pass(labels, bs, i, 0) == (bs, 0)
    decreases |bs| - i
  {
    if i < |bs| {
      assert MovedUp(bs, i, 0) == bs && FitsNow(labels, bs[i], bs);
      NothingGrows(labels, bs, i + 1);
    }
  }

  /** No code is moved exactly if every short jump reaches its target as it is. */
  lemma LeftAlone(labels: Labels, bs: seq<Block>)
    requires OnBlocks(labels, |bs|) && Defined(labels, bs)
    ensures Relax(labels, bs) == (bs, 0) <==> forall i :: 0 <= i < |bs| ==> FitsNow(labels, bs[i], bs)
  {
    hide Relax, Pass;
    var p := Pass(labels, bs, 0, 0);
    RelaxStep(labels, bs, p);
    if forall i :: 0 <= i < |bs| ==> FitsNow(labels, bs[i], bs) {
      NothingGrows(labels, bs, 0);
    }
    if Relax(labels, bs) == (bs, 0) {
      RelaxPlaces(labels, bs);
      forall i | 0 <= i < |bs| ensures FitsNow(labels, bs[i], bs) {
        assert !MustGrow(labels, bs, i, 0) && DefinedIn(labels, bs[i], |bs|);
      }
    }
  }

  // ---------------------------------------------------------------- a jump down that is missed

  function ShortAt(start: nat, offset: nat, name: string): Block {
    Block(start, start, offset, Some(name), true, [])
  }

  function Plain(start: nat): Block {
    Block(start, start, -1, None, false, [])
  }

  /**
   * A loop of 127 bytes with two jumps out of it: the second jump grows in the
   * first pass, which makes the first grow in the second pass.
   */
  const LoopBlocks: seq<Block> := [
    ShortAt(0, 10, "near"), ShortAt(12, 20, "far"), ShortAt(22, 125, "loop"), Plain(127), Plain(137), Plain(300)]

  const LoopLabels: Labels := map["loop" := 0, "near" := 4, "far" := 5]

  /** The loop's blocks with the starts and sizes given. */
  ghost function LoopNow(s1: int, s2: int, s3: int, s4: int, s5: int, short0: bool, short1: bool): (bs: seq<Block>)
    ensures |bs| == 6 && OnBlocks(LoopLabels, 6) && Defined(LoopLabels, bs)
  {
    var bs := [
      ShortAt(0, 10, "near").(jump1 := short0), ShortAt(12, 20, "far").(start := s1, jump1 := short1),
      ShortAt(22, 125, "loop").(start := s2),
      Plain(127).(start := s3), Plain(137).(start := s4), Plain(300).(start := s5)];
    assert forall i :: 0 <= i < 6 ==> DefinedIn(LoopLabels, bs[i], 6);
    bs
  }

  /** The second pass's growth is unknown to the third, which leaves the jump back at 131 bytes short. */
  lemma JumpBackMissed()
    ensures OnBlocks(LoopLabels, |LoopBlocks|) && Defined(LoopLabels, LoopBlocks) && Emitted(LoopBlocks, 301)
    ensures var r := Relax(LoopLabels, LoopBlocks).0;
            r[2].jump1 && r[2].jumpTarget == Some("loop") && Displacement(LoopLabels, r, 2) == -131
  {
    hide Pass, Relax;
    LoopEmitted();
    FirstLoopPass();
    SecondLoopPass();
    ThirdLoopPass();
    RelaxStep(LoopLabels, LoopBlocks, (LoopNow(12, 25, 130, 140, 303, true, false), 3));
    RelaxStep(LoopLabels, LoopNow(12, 25, 130, 140, 303, true, false), (LoopNow(15, 28, 133, 143, 306, false, false), 3));
    RelaxStep(LoopLabels, LoopNow(15, 28, 133, 143, 306, false, false), (LoopNow(15, 28, 133, 143, 306, false, false), 0));
  }

  lemma LoopEmitted()
    ensures LoopBlocks == LoopNow(12, 22, 127, 137, 300, true, true) && Emitted(LoopBlocks, 301)
  {
    assert forall i :: 0 <= i < 6 ==> EmittedBlock(LoopBlocks, 301, i);
  }

  lemma FirstLoopPass()
    ensures Pass(LoopLabels, LoopNow(12, 22, 127, 137, 300, true, true), 0, 0)
         == (LoopNow(12, 25, 130, 140, 303, true, false), 3)
  {
    var L := LoopLabels;
    var b := LoopNow(12, 22, 127, 137, 300, true, true);
    assert Visited(L, b, 0, 0) == b && MotionAfter(L, b, 0, 0) == 0;
    var c := LoopNow(12, 22, 127, 137, 300, true, false);
    assert Visited(L, b, 1, 0) == c && MotionAfter(L, b, 1, 0) == 3;
    LoopRest(12, 22, 127, 137, 300, true, false, 3);
  }

  /** The third to sixth blocks of the loop in a pass that moves them by 3 or not at all. */
  lemma LoopRest(s1: int, s2: int, s3: int, s4: int, s5: int, short0: bool, short1: bool, m: int)
    requires 0 <= m <= 3
    ensures Pass(LoopLabels, LoopNow(s1, s2, s3, s4, s5, short0, short1), 2, m)
         == (LoopNow(s1, s2 + m, s3 + m, s4 + m, s5 + m, short0, short1), m)
  {
    var L := LoopLabels;
    var c := LoopNow(s1, s2, s3, s4, s5, short0, short1);
    var d := LoopNow(s1, s2 + m, s3, s4, s5, short0, short1);
    assert Visited(L, c, 2, m) == d && MotionAfter(L, c, 2, m) == m;
    var e := LoopNow(s1, s2 + m, s3 + m, s4, s5, short0, short1);
    assert Visited(L, d, 3, m) == e && MotionAfter(L, d, 3, m) == m;
    var f := LoopNow(s1, s2 + m, s3 + m, s4 + m, s5, short0, short1);
    assert Visited(L, e, 4, m) == f && MotionAfter(L, e, 4, m) == m;
    var g := LoopNow(s1, s2 + m, s3 + m, s4 + m, s5 + m, short0, short1);
    assert Visited(L, f, 5, m) == g && MotionAfter(L, f, 5, m) == m;
    assert Pass(L, f, 5, m) == (g, m);
    assert Pass(L, e, 4, m) == (g, m);
  }

  lemma SecondLoopPass()
    ensures Pass(LoopLabels, LoopNow(12, 25, 130, 140, 303, true, false), 0, 0)
         == (LoopNow(15, 28, 133, 143, 306, false, false), 3)
  {
    var L := LoopLabels;
    var b := LoopNow(12, 25, 130, 140, 303, true, false);
    var c := LoopNow(12, 25, 130, 140, 303, false, false);
    assert Visited(L, b, 0, 0) == c && MotionAfter(L, b, 0, 0) == 3;
    var d := LoopNow(15, 25, 130, 140, 303, false, false);
    assert Visited(L, c, 1, 3) == d && MotionAfter(L, c, 1, 3) == 3;
    LoopRest(15, 25, 130, 140, 303, false, false, 3);
  }

  lemma ThirdLoopPass()
    ensures Pass(LoopLabels, LoopNow(15, 28, 133, 143, 306, false, false), 0, 0)
         == (LoopNow(15, 28, 133, 143, 306, false, false), 0)
  {
    var L := LoopLabels;
    var b := LoopNow(15, 28, 133, 143, 306, false, false);
    assert Visited(L, b, 0, 0) == b && MotionAfter(L, b, 0, 0) == 0;
    assert Visited(L, b, 1, 0) == b && MotionAfter(L, b, 1, 0) == 0;
    LoopRest(15, 28, 133, 143, 306, false, false, 0);
  }
}
