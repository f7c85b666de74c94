/** Making room in the bytecode for jumps that grow, and filling in where jumps go. */
module CodeMotion {
  import opened Bytes
  import opened JumpRelaxation

  // ---------------------------------------------------------------- numbers in the code

  /** A signed byte. */
  ghost function Signed1(b: Byte): int {
    if b < 0x80 then b else b - 0x100
  }

  /** A signed number of four bytes, the highest first. */
  ghost function Signed4(b0: Byte, b1: Byte, b2: Byte, b3: Byte): int {
    Signed1(b0) * 0x100_0000 + b1 * 0x1_0000 + b2 * 0x100 + b3
  }

  lemma RoundTrip1(x: int)
    ensures Signed1(Low(x)) == x <==> InByte(x)
  {
  }

  ghost predicate InWord(x: int) {
    -0x8000_0000 <= x < 0x8000_0000
  }

  lemma RoundTrip4(x: int)
    requires InWord(x)
    ensures Signed4(Low(x / 0x100_0000), Low(x / 0x1_0000), Low(x / 0x100), Low(x)) == x
  {
    var q0, q1, q2 := x / 0x100, x / 0x1_0000, x / 0x100_0000;
    assert q1 == q0 / 0x100 && q2 == q1 / 0x100;
    assert x == q0 * 0x100 + x % 0x100 && q0 == q1 * 0x100 + q0 % 0x100 && q1 == q2 * 0x100 + q1 % 0x100;
    assert -0x80 <= q2 < 0x80;
    RoundTrip1(q2);
  }

  // ---------------------------------------------------------------- opcodes of grown jumps

  /** When a jump is taken. The start of a catch is encoded like a jump to the code that catches. */
  datatype Condition = Always | IfTrue | IfFalse | OnError

  const INST_JUMP1: Byte := 34
  const INST_JUMP4: Byte := 35
  const INST_JUMP_TRUE1: Byte := 36
  const INST_JUMP_TRUE4: Byte := 37
  const INST_JUMP_FALSE1: Byte := 38
  const INST_JUMP_FALSE4: Byte := 39
  const INST_BEGIN_CATCH4: Byte := 63

  /** Which opcodes are jumps, on what condition, and with how many bytes of operand. */
  ghost function JumpOf(op: Byte): Option<(Condition, nat)> {
    if op == INST_JUMP1 then Some((Always, 1))
    else if op == INST_JUMP4 then Some((Always, 4))
    else if op == INST_JUMP_TRUE1 then Some((IfTrue, 1))
    else if op == INST_JUMP_TRUE4 then Some((IfTrue, 4))
    else if op == INST_JUMP_FALSE1 then Some((IfFalse, 1))
    else if op == INST_JUMP_FALSE4 then Some((IfFalse, 4))
    else if op == INST_BEGIN_CATCH4 then Some((OnError, 4))
    else None
  }

  /** The jump of block i has an opcode of a jump with an operand of one byte if it is short, and of four if not. */
  ghost predicate Encoded(c: seq<Byte>, bs: seq<Block>, i: nat)
    requires i < |bs|
  {
    && 0 <= bs[i].jumpOffset < |c| && JumpOf(c[bs[i].jumpOffset]).Some?
    && JumpOf(c[bs[i].jumpOffset]).value.1 == if bs[i].jump1 then 1 else 4
  }

  /** The jump of block b is the jump of block a: on the same condition, and its opcode is the next one if it has grown. */
  ghost predicate SameJump(c: seq<Byte>, a: Block, d: seq<Byte>, b: Block)
    requires 0 <= a.jumpOffset < |c| && JumpOf(c[a.jumpOffset]).Some? && 0 <= b.jumpOffset < |d| && JumpOf(d[b.jumpOffset]).Some?
  {
    && JumpOf(d[b.jumpOffset]).value.0 == JumpOf(c[a.jumpOffset]).value.0
    && d[b.jumpOffset] == c[a.jumpOffset] + if a.jump1 && !b.jump1 then 1 else 0
  }

  /** The opcode after a short jump's: the same jump with a long operand. */
  function NextOp(op: Byte): (next: Byte)
    ensures JumpOf(op).Some? && JumpOf(op).value.1 == 1 ==> JumpOf(next) == Some((JumpOf(op).value.0, 4))
  {
    var x: int := op;
    Low(x + 1)
  }

  /** The jump at x has grown. */
  ghost predicate GrownAt(was: seq<Block>, now: seq<Block>, x: int)
    requires |was| == |now|
  {
    exists i :: 0 <= i < |was| && was[i].jump1 != now[i].jump1 && was[i].jumpOffset == x
  }

  /** The opcodes of the jumps that grew, and nothing else, have been changed to the next. */
  ghost predicate Patched(c: seq<Byte>, d: seq<Byte>, was: seq<Block>, now: seq<Block>)
    requires |was| == |now|
  {
    |d| == |c| && forall x :: 0 <= x < |c| ==> d[x] == if GrownAt(was, now, x) then NextOp(c[x]) else c[x]
  }

  /** No two short jumps are at the same place. */
  lemma DistinctJumps(bs: seq<Block>, len: nat, i: nat, j: nat)
    requires Emitted(bs, len) && i < j < |bs| && bs[i].jump1 && bs[j].jump1
    ensures 0 <= bs[i].jumpOffset < bs[j].jumpOffset < len - 1
  {
    assert EmittedBlock(bs, len, i) && EmittedBlock(bs, len, j);
    StartsRise(bs, len, i, j);
    EndsBelow(bs, len, j);
  }

  lemma JumpInCode(bs: seq<Block>, len: nat, i: nat)
    requires Emitted(bs, len) && i < |bs| && bs[i].jumpTarget.Some?
    ensures 0 <= bs[i].originalStart <= bs[i].jumpOffset && bs[i].jumpOffset + JumpSize(bs[i]) == End(bs, len, i) <= len
  {
    assert EmittedBlock(bs, len, i);
    EndsBelow(bs, len, i);
  }

  lemma PatchedNow(c: seq<Byte>, bs: seq<Block>)
    ensures Patched(c, c, bs, bs)
  {
  }

  /** Moving starts does not matter to opcodes. */
  lemma PatchedMoved(c: seq<Byte>, d: seq<Byte>, was: seq<Block>, now: seq<Block>, next: seq<Block>)
    requires |was| == |now| == |next| && Patched(c, d, was, now)
    requires forall i :: 0 <= i < |was| ==> next[i].jump1 == now[i].jump1
    ensures Patched(c, d, was, next)
  {
    forall x: int ensures GrownAt(was, next, x) <==> GrownAt(was, now, x) {
      if GrownAt(was, next, x) {
        var i :| 0 <= i < |was| && was[i].jump1 != next[i].jump1 && was[i].jumpOffset == x;
        assert was[i].jump1 != now[i].jump1;
      }
      if GrownAt(was, now, x) {
        var i :| 0 <= i < |was| && was[i].jump1 != now[i].jump1 && was[i].jumpOffset == x;
        assert was[i].jump1 != next[i].jump1;
      }
    }
  }

  /** One more jump grows. */
  lemma PatchedMore(c: seq<Byte>, d: seq<Byte>, was: seq<Block>, len: nat, now: seq<Block>, i: nat)
    requires Emitted(was, len) && |was| == |now| && Patched(c, d, was, now) && i < |was| && len <= |c|
    requires was[i].jump1 && now[i].jump1 && forall k :: 0 <= k < |was| && now[k].jump1 ==> was[k].jump1
    ensures var x := was[i].jumpOffset;
            0 <= x < |d| && Patched(c, d[x := NextOp(d[x])], was, now[i := now[i].(jump1 := false)])
  {
    assert EmittedBlock(was, len, i);
    JumpInCode(was, len, i);
    var x := was[i].jumpOffset;
    var next := now[i := now[i].(jump1 := false)];
    assert next[i].jump1 != was[i].jump1;
    assert !GrownAt(was, now, x) by {
      forall k: nat | k < |was| && was[k].jump1 != now[k].jump1 ensures was[k].jumpOffset != x {
        if k < i {
          DistinctJumps(was, len, k, i);
        } else if i < k {
          DistinctJumps(was, len, i, k);
        }
      }
    }
    forall y: int | y != x ensures GrownAt(was, next, y) <==> GrownAt(was, now, y) {
      if GrownAt(was, next, y) {
        var k :| 0 <= k < |was| && was[k].jump1 != next[k].jump1 && was[k].jumpOffset == y;
        assert was[k].jump1 != now[k].jump1;
      }
      if GrownAt(was, now, y) {
        var k :| 0 <= k < |was| && was[k].jump1 != now[k].jump1 && was[k].jumpOffset == y;
        assert was[k].jump1 != next[k].jump1;
      }
    }
  }

  lemma GrownNow(bs: seq<Block>)
    ensures Grown(bs, bs)
  {
  }

  /** A pass moves no code or leaves fewer short jumps. */
  lemma PassLeavesFewer(labels: Labels, bs: seq<Block>)
    requires OnBlocks(labels, |bs|) && Defined(labels, bs)
    ensures var p := Pass(labels, bs, 0, 0);
            p.1 >= 0 && Shorts(p.0) <= Shorts(bs) && (p.1 != 0 ==> Shorts(p.0) < Shorts(bs))
  {
    PassPlaces(labels, bs, bs, 0, 0);
    FewerShorts(bs, Pass(labels, bs, 0, 0).0);
  }

  /** The label that the block jumps to and those in its jump table are defined. */
  ghost predicate AllNamed(labels: Labels, b: Block) {
    && (b.jumpTarget.Some? ==> b.jumpTarget.value in labels)
    && forall j :: 0 <= j < |b.jumpTable| ==> b.jumpTable[j] in labels
  }

  lemma NamedIs(labels: Labels, bs: seq<Block>)
    ensures Defined(labels, bs) <==> forall i :: 0 <= i < |bs| ==> AllNamed(labels, bs[i])
  {
    forall i | 0 <= i < |bs| ensures DefinedIn(labels, bs[i], |bs|) <==> AllNamed(labels, bs[i]) {
    }
  }

  class CompileEnv {
    const labels: Labels
    /** The basic blocks, in the order of the code. */
    var blocks: seq<Block>
    var code: array<Byte>
    var codeNext: nat

    ghost predicate Valid()
      reads this
    {
      blocks != [] && OnBlocks(labels, |blocks|) && codeNext <= code.Length && code.Length > 0
    }

    // -------------------------------------------------------------- relocation

    /** From the blocks first, emitted with code c, only growth has happened. */
    ghost predicate OnlyGrown(first: seq<Block>, c: seq<Byte>)
      reads this, code
    {
      && Valid() && Emitted(first, codeNext) && Grown(first, blocks)
      && codeNext <= |c| && Patched(c, code[..], first, blocks)
    }

    lemma GrownStep(first: seq<Block>, i: nat, motion: int)
      requires Grown(first, blocks) && i < |blocks|
      ensures Grown(first, MovedUp(blocks, i, motion))
      ensures blocks[i].jump1 ==> first[i].jump1
      ensures blocks[i].jump1 ==> Grown(first, MovedUp(blocks, i, motion)[i := MovedUp(blocks, i, motion)[i].(jump1 := false)])
      ensures forall k :: 0 <= k < |first| && blocks[k].jump1 ==> first[k].jump1
      ensures blocks[i].jumpOffset == first[i].jumpOffset && blocks[i].jumpTarget == first[i].jumpTarget
    {
      var next := MovedUp(blocks, i, motion);
      forall k | 0 <= k < |blocks| ensures GrownBlock(first[k], blocks[k]) && GrownBlock(first[k], next[k]) {
        assert GrownBlock(first[k], blocks[k]);
      }
    }

    /** One block of a relocation pass. */
    method VisitBlock(i: nat, motion: int, ghost first: seq<Block>, ghost c: seq<Byte>) returns (ok: bool, after: int)
      requires i < |blocks| && OnlyGrown(first, c)
      modifies this`blocks, code
      ensures OnlyGrown(first, c) && |blocks| == old(|blocks|)
      ensures !ok ==> !old(Defined(labels, blocks))
      ensures ok ==> old(DefinedIn(labels, blocks[i], |blocks|))
      ensures ok ==> forall k :: 0 <= k < |blocks| ==> DefinedIn(labels, blocks[k], |blocks|) == old(DefinedIn(labels, blocks[k], |blocks|))
      ensures ok && old(Defined(labels, blocks)) ==>
        blocks == Visited(labels, old(blocks), i, motion) && after == MotionAfter(labels, old(blocks), i, motion)
    {
      hide Emitted;
      after := motion;
      GrownStep(first, i, motion);
      ghost var was := blocks;
      PatchedMoved(c, code[..], first, blocks, MovedUp(blocks, i, motion));
      blocks := blocks[i := blocks[i].(start := blocks[i].start + motion)];
      var b := blocks[i];
      if b.jumpTarget.Some? {
        if b.jumpTarget.value !in labels {
          assert !DefinedIn(labels, was[i], |was|);
          return false, after;
        }
        if b.jump1 {
          var offset := blocks[labels[b.jumpTarget.value]].start - (b.jumpOffset + motion);
          if offset < -0x80 || offset > 0x7F {
            PatchedMore(c, code[..], first, codeNext, blocks, i);
            var opcode := code[b.jumpOffset];
            code[b.jumpOffset] := NextOp(opcode);
            after := motion + 3;
            blocks := blocks[i := b.(jump1 := false)];
          }
        }
      }
      ok := CheckJumpTableLabels(i);
      if !ok {
        assert !DefinedIn(labels, was[i], |was|);
      }
    }

    /** Are all the labels in the jump table of a block defined? */
    method CheckJumpTableLabels(i: nat) returns (ok: bool)
      requires i < |blocks|
      ensures ok <==> forall j :: 0 <= j < |blocks[i].jumpTable| ==> blocks[i].jumpTable[j] in labels
    {
      var j := 0;
      while j < |blocks[i].jumpTable|
        invariant 0 <= j <= |blocks[i].jumpTable| && forall k :: 0 <= k < j ==> blocks[i].jumpTable[k] in labels
      {
        if blocks[i].jumpTable[j] !in labels {
          return false;
        }
        j := j + 1;
      }
      ok := true;
    }

    /** One pass over the blocks. */
    method RelocatePass(ghost first: seq<Block>, ghost c: seq<Byte>) returns (ok: bool, motion: int)
      requires OnlyGrown(first, c)
      modifies this`blocks, code
      ensures OnlyGrown(first, c) && |blocks| == old(|blocks|)
      ensures ok <==> old(Defined(labels, blocks))
      ensures ok ==> Defined(labels, blocks) && (blocks, motion) == Pass(labels, old(blocks), 0, 0)
    {
      hide Emitted, Grown, Patched, OnBlocks;
      ghost var was := blocks;
      motion := 0;
      var i := 0;
      while i < |blocks|
        invariant 0 <= i <= |blocks| == |was| && OnlyGrown(first, c)
        invariant Defined(labels, was) ==> Defined(labels, blocks)
        invariant Defined(labels, was) ==> Pass(labels, blocks, i, motion) == Pass(labels, was, 0, 0)
        invariant forall k :: 0 <= k < i ==> DefinedIn(labels, was[k], |was|)
        invariant forall k :: 0 <= k < |was| ==> DefinedIn(labels, blocks[k], |was|) == DefinedIn(labels, was[k], |was|)
      {
        ok, motion := VisitBlock(i, motion, first, c);
        if !ok {
          return;
        }
        i := i + 1;
      }
      ok := true;
    }

    /** Passes until one moves nothing; fails exactly if a label is not defined. */
    method CalculateJumpRelocations() returns (ok: bool, mustMove: int)
      requires Valid() && Emitted(blocks, codeNext)
      modifies this`blocks, code
      ensures ok <==> old(Defined(labels, blocks))
      ensures ok ==> Valid() && (blocks, mustMove) == Relax(labels, old(blocks))
      ensures ok ==> Patched(old(code[..]), code[..], old(blocks), blocks)
    {
      hide Emitted, Patched, Pass, Relax, Defined, OnBlocks, Placed, Growth, Grown;
      GrownNow(blocks);
      ghost var first, c := blocks, code[..];
      PatchedNow(c, first);
      mustMove := 0;
      var motion := 1;
      ghost var bs := blocks;
      ok := true;
      while motion != 0
        invariant OnlyGrown(first, c) && |blocks| == |first|
        invariant motion != 0 || Defined(labels, first)
        invariant Defined(labels, first) <==> Defined(labels, blocks)
        invariant Defined(labels, first) && motion != 0 ==> Relax(labels, first) == (Relax(labels, blocks).0, mustMove + Relax(labels, blocks).1)
        invariant Defined(labels, first) && motion == 0 ==> Relax(labels, first) == (blocks, mustMove)
        decreases Shorts(blocks), motion != 0
      {
        ghost var was := blocks;
        ok, motion := RelocatePass(first, c);
        if !ok {
          return;
        }
        PassLeavesFewer(labels, was);
        RelaxStep(labels, was, (blocks, motion));
        mustMove := mustMove + motion;
      }
    }

    // -------------------------------------------------------------- moving code

    /** Doubles the code array. */
    method ExpandCodeArray()
      requires codeNext <= code.Length && code.Length > 0
      modifies this`code
      ensures fresh(code) && code.Length == 2 * old(code.Length)
      ensures code[..codeNext] == old(code[..codeNext])
    {
      var more := new Byte[2 * code.Length];
      var i: nat := 0;
      while i < codeNext
        invariant code == old(code) && i <= codeNext && more[..i] == code[..i]
      {
        more[i] := code[i];
        i := i + 1;
      }
      code := more;
    }

    /** Moves n bytes of code up. */
    method MoveUp(dst: nat, src: nat, n: nat)
      requires src <= dst && dst + n <= code.Length
      modifies code
      ensures Written(old(code[..]), code[..], dst, src, n)
    {
      var i := n;
      while i > 0
        invariant 0 <= i <= n
        invariant forall x :: 0 <= x < code.Length ==>
          code[x] == old(if dst + i <= x < dst + n then code[src + (x - dst)] else code[x])
      {
        i := i - 1;
        code[dst + i] := code[src + i];
      }
      assert code[dst..dst + n] == old(code[src..src + n]);
    }

    /**
     * Moves every block to its new place, the last one first, and its jump
     * with it: no block is overwritten before it has been moved.
     */
    method MoveCodeForJumps(mustMove: nat, ghost first: seq<Block>)
      requires Valid() && Emitted(first, codeNext) && Placed(first, blocks) && mustMove == Growth(first, blocks, |first|)
      modifies this`blocks, this`code, this`codeNext, code
      ensures Valid() && codeNext == old(codeNext) + mustMove && |blocks| == |first| && (code == old(code) || fresh(code))
      ensures forall i :: 0 <= i < |first| ==> blocks[i] == Carried(old(blocks[i]))
      ensures forall i: nat :: i < |first| ==> BlockMoved(old(code[..]), code[..], first, old(blocks), old(codeNext), i)
    {
      hide Emitted, Placed, Growth, BlockMoved, End, MovedFrom;
      PlacedLength(first, blocks);
      ghost var c, bs := code[..], blocks;
      ghost var len := codeNext;
      MakeRoom(mustMove);
      var top := codeNext;
      var i := |blocks|;
      EndOfCode(first, len);
      AllToMove(c, code[..], first, bs, len);
      while i > 0
        invariant 0 <= i <= |blocks| == |bs| && top == (if i == 0 then 0 else End(first, len, i - 1))
        invariant codeNext == len && code.Length >= len + mustMove && code.Length > 0 && (code == old(code) || fresh(code))
        invariant MovedFrom(c, code[..], first, bs, blocks, len, i)
      {
        i := i - 1;
        top := MoveBlock(top, i, c, first, bs);
      }
      AllMoved(c, code[..], first, bs, blocks, len);
      codeNext := codeNext + mustMove;
    }

    /** Moves the code of one block, which ends at top, and its jump. */
    method MoveBlock(top: nat, i: nat, ghost c: seq<Byte>, ghost first: seq<Block>, ghost bs: seq<Block>) returns (bottom: nat)
      requires Emitted(first, codeNext) && Placed(first, bs) && i < |first| == |bs| && top == End(first, codeNext, i)
      requires code.Length >= codeNext + Growth(first, bs, |first|) && codeNext <= |c|
      requires MovedFrom(c, code[..], first, bs, blocks, codeNext, i + 1)
      modifies this`blocks, code
      ensures MovedFrom(c, code[..], first, bs, blocks, codeNext, i) && |blocks| == |bs|
      ensures bottom == if i == 0 then 0 else End(first, codeNext, i - 1)
    {
      hide Emitted, Placed, Growth, BlockMoved;
      BlockRoom(first, bs, codeNext, i);
      BlockBefore(first, codeNext, i);
      ghost var d := code[..];
      var b := blocks[i];
      MoveUp(b.start, b.originalStart, top - b.originalStart);
      MovedMore(c, d, code[..], first, bs, codeNext, i);
      bottom := b.originalStart;
      blocks := blocks[i := b.(jumpOffset := b.jumpOffset + (b.start - b.originalStart))];
    }

    method MakeRoom(mustMove: nat)
      requires codeNext <= code.Length && code.Length > 0
      modifies this`code
      ensures code.Length >= codeNext + mustMove && code.Length > 0 && (code == old(code) || fresh(code))
      ensures code[..codeNext] == old(code[..codeNext])
    {
      while code.Length < codeNext + mustMove
        invariant codeNext <= code.Length && code.Length > 0 && code[..codeNext] == old(code[..codeNext])
        invariant code == old(code) || fresh(code)
        decreases codeNext + mustMove - code.Length
      {
        ExpandCodeArray();
      }
    }

    // -------------------------------------------------------------- filling in

    /** How far the jump of block i goes. */
    ghost function Distance(i: nat): int
      requires i < |blocks| && OnBlocks(labels, |blocks|) && blocks[i].jumpTarget.Some? && blocks[i].jumpTarget.value in labels
      reads this
    {
      blocks[labels[blocks[i].jumpTarget.value]].start - blocks[i].jumpOffset
    }

    /** Fills in where every jump goes, once the code is where it will be. */
    method FillInJumpOffsets()
      requires Valid() && Defined(labels, blocks) && Laid(blocks, codeNext) && codeNext < 0x8000_0000
      modifies code
      ensures forall i: nat :: i < |blocks| && blocks[i].jumpTarget.Some? ==>
        blocks[i].jumpTarget.value in labels && Operand(code[..], blocks, i, Distance(i))
      ensures forall x :: 0 <= x < code.Length && !InOperand(blocks, |blocks|, x) ==> code[x] == old(code[x])
    {
      var i: nat := 0;
      while i < |blocks|
        invariant i <= |blocks|
        invariant forall k: nat :: k < i && blocks[k].jumpTarget.Some? ==>
          blocks[k].jumpTarget.value in labels && Operand(code[..], blocks, k, Distance(k))
        invariant forall x :: 0 <= x < code.Length && !InOperand(blocks, i, x) ==> code[x] == old(code[x])
      {
        if blocks[i].jumpTarget.Some? {
          FillIn(i);
        }
        i := i + 1;
      }
    }

    /** Fills in where one jump goes. */
    method FillIn(i: nat)
      requires Valid() && Defined(labels, blocks) && Laid(blocks, codeNext) && codeNext < 0x8000_0000
      requires i < |blocks| && blocks[i].jumpTarget.Some?
      modifies code
      ensures blocks[i].jumpTarget.value in labels && Operand(code[..], blocks, i, Distance(i))
      ensures forall x :: 0 <= x < code.Length && !IsOperand(blocks, i, x) ==> code[x] == old(code[x])
      ensures forall k: nat, d :: k < i && blocks[k].jumpTarget.Some? && Operand(old(code[..]), blocks, k, d) ==>
        Operand(code[..], blocks, k, d)
    {
      hide Defined, Laid, Operand;
      ghost var c := code[..];
      IsDefined(labels, blocks, i);
      var from := blocks[i].jumpOffset;
      var d := blocks[labels[blocks[i].jumpTarget.value]].start - from;
      LaidRange(blocks, codeNext, i);
      LaidRange(blocks, codeNext, labels[blocks[i].jumpTarget.value]);
      if blocks[i].jump1 {
        StoreInt1(from + 1, d);
      } else {
        StoreInt4(from + 1, d);
      }
      OperandIs(code[..], blocks, i, d);
      forall k: nat, e | k < i && blocks[k].jumpTarget.Some? && Operand(c, blocks, k, e)
        ensures Operand(code[..], blocks, k, e)
      {
        OperandKept(c, code[..], blocks, codeNext, k, i, e);
      }
    }

    /**
     * All of it: jumps that are too far grow, code makes way, and jumps are
     * filled in. Every block's code is at its place in the result, save for
     * operands of jumps and opcodes of grown ones (patched); long jumps, and
     * short jumps up the code, go where their labels are; so do short jumps
     * down the code exactly if, with what has grown in between, they are in
     * reach.
     */
    method FinishJumps() returns (ok: bool, ghost patched: seq<Byte>)
      requires Valid() && Emitted(blocks, codeNext) && codeNext + 3 * |blocks| < 0x8000_0000
      modifies this`blocks, this`code, this`codeNext, code
      ensures ok <==> old(Defined(labels, blocks))
      ensures ok <==> forall i :: 0 <= i < |old(blocks)| ==> AllNamed(labels, old(blocks)[i])
      ensures ok ==> Valid() && |blocks| == old(|blocks|) && Defined(labels, blocks)
      ensures ok ==> forall i: nat :: i < |blocks| ==> blocks[i] == Carried(Relax(labels, old(blocks)).0[i])
      ensures ok ==> Patched(old(code[..]), patched, old(blocks), Relax(labels, old(blocks)).0)
      ensures ok ==> forall i: nat :: i < |blocks| ==> BlockKept(patched, code[..], old(blocks), blocks, old(codeNext), i)
      ensures ok ==> forall i: nat :: i < |blocks| && blocks[i].jumpTarget.Some? && old(Encoded(code[..], blocks, i)) ==>
        Encoded(code[..], blocks, i) && SameJump(old(code[..]), old(blocks)[i], code[..], blocks[i])
      ensures ok ==> forall i: nat :: i < |blocks| && blocks[i].jumpTarget.Some? ==> Operand(code[..], blocks, i, Distance(i))
      ensures ok ==> forall i: nat :: i < |blocks| && blocks[i].jump1 && blocks[i].jumpTarget.Some? && labels[blocks[i].jumpTarget.value] > i ==>
        InByte(Distance(i))
      ensures ok ==> forall i: nat :: i < |blocks| && blocks[i].jump1 && blocks[i].jumpTarget.Some? && labels[blocks[i].jumpTarget.value] <= i ==>
        (InByte(Distance(i)) <==> DownInReach(old(blocks), Relax(labels, old(blocks)).0, labels[blocks[i].jumpTarget.value], i))
      ensures ok ==> forall i: nat :: i < |blocks| && blocks[i].jump1 && blocks[i].jumpTarget.Some? && labels[blocks[i].jumpTarget.value] <= i ==>
        (RoomToGrow(old(blocks), labels[blocks[i].jumpTarget.value], i) ==> InByte(Distance(i)))
    {
      hide Emitted, Patched, Relax, Defined, Laid, Operand, BlockMoved, BlockKept, Placed, Growth, InOperand;
      ghost var first, len := blocks, codeNext;
      NamedIs(labels, first);
      var mustMove;
      ok, mustMove := CalculateJumpRelocations();
      patched := code[..];
      if !ok {
        return;
      }
      ghost var r := blocks;
      RelaxPlaces(labels, first);
      GrowthSmall(first, r);
      MoveCodeForJumps(mustMove, first);
      CarriedDefined(labels, r, blocks);
      LaidOut(first, r, len, blocks);
      ghost var c := code[..];
      FillInJumpOffsets();
      forall i: nat | i < |blocks| ensures BlockKept(patched, code[..], first, blocks, len, i) {
        KeptBlock(patched, c, code[..], first, r, blocks, len, i);
      }
      forall i: nat | i < |blocks| && blocks[i].jumpTarget.Some? && old(Encoded(code[..], blocks, i))
        ensures Encoded(code[..], blocks, i) && SameJump(old(code[..]), first[i], code[..], blocks[i])
      {
        OpcodeKept(old(code[..]), patched, code[..], first, r, blocks, len, codeNext, i);
      }
      forall i: nat | i < |blocks| && blocks[i].jump1 && blocks[i].jumpTarget.Some? && labels[blocks[i].jumpTarget.value] > i ensures InByte(Distance(i)) {
        ShortLands(labels, first, len, r, blocks, i);
      }
      forall i: nat | i < |blocks| && blocks[i].jump1 && blocks[i].jumpTarget.Some? && labels[blocks[i].jumpTarget.value] <= i
        ensures InByte(Distance(i)) <==> DownInReach(first, r, labels[blocks[i].jumpTarget.value], i)
        ensures RoomToGrow(first, labels[blocks[i].jumpTarget.value], i) ==> InByte(Distance(i))
      {
        DownLands(labels, first, len, r, blocks, i);
      }
    }

    method StoreInt1(at: nat, d: int)
      requires at < code.Length
      modifies code
      ensures code[at] == Low(d) && forall x :: 0 <= x < code.Length && x != at ==> code[x] == old(code[x])
    {
      code[at] := Low(d);
    }

    method StoreInt4(at: nat, d: int)
      requires at + 4 <= code.Length
      modifies code
      ensures code[at] == Low(d / 0x100_0000) && code[at + 1] == Low(d / 0x1_0000)
      ensures code[at + 2] == Low(d / 0x100) && code[at + 3] == Low(d)
      ensures forall x :: 0 <= x < code.Length && !(at <= x < at + 4) ==> code[x] == old(code[x])
    {
      code[at] := Low(d / 0x100_0000);
      code[at + 1] := Low(d / 0x1_0000);
      code[at + 2] := Low(d / 0x100);
      code[at + 3] := Low(d);
    }
  }

  lemma IsDefined(labels: Labels, bs: seq<Block>, i: nat)
    requires Defined(labels, bs) && i < |bs|
    ensures DefinedIn(labels, bs[i], |bs|)
  {
  }

  lemma OperandIs(c: seq<Byte>, bs: seq<Block>, i: nat, d: int)
    requires i < |bs| && InWord(d) && 0 <= bs[i].jumpOffset && bs[i].jumpOffset + JumpSize(bs[i]) <= |c|
    requires var at := bs[i].jumpOffset + 1;
      if bs[i].jump1 then c[at] == Low(d)
      else c[at] == Low(d / 0x100_0000) && c[at + 1] == Low(d / 0x1_0000) && c[at + 2] == Low(d / 0x100) && c[at + 3] == Low(d)
    ensures Operand(c, bs, i, d)
  {
    hide Low, Signed4, Signed1;
    RoundTrip1(d);
    RoundTrip4(d);
  }

  lemma OperandKept(c: seq<Byte>, e: seq<Byte>, bs: seq<Block>, len: nat, k: nat, i: nat, d: int)
    requires Laid(bs, len) && k < i < |bs| && bs[k].jumpTarget.Some? && Operand(c, bs, k, d) && |e| == |c|
    requires forall x :: 0 <= x < |e| && !IsOperand(bs, i, x) ==> e[x] == c[x]
    ensures Operand(e, bs, k, d)
  {
    hide Low, Signed4, Signed1;
    OperandsApart(bs, len, k, i);
  }

  /** Blocks one after the other up to len, each ending with its jump. */
  ghost predicate Laid(bs: seq<Block>, len: nat) {
    forall i :: 0 <= i < |bs| ==> LaidBlock(bs, len, i)
  }

  ghost predicate LaidBlock(bs: seq<Block>, len: nat, i: nat)
    requires i < |bs|
  {
    && 0 <= bs[i].start <= NewEnd(bs, len, i)
    && (bs[i].jumpTarget.Some? ==>
          bs[i].start <= bs[i].jumpOffset && bs[i].jumpOffset + JumpSize(bs[i]) == NewEnd(bs, len, i))
  }

  lemma {:induction false} LaidRange(bs: seq<Block>, len: nat, i: nat)
    requires Laid(bs, len) && i < |bs|
    ensures 0 <= bs[i].start <= NewEnd(bs, len, i) <= len && LaidBlock(bs, len, i)
    decreases |bs| - i
  {
    assert LaidBlock(bs, len, i);
    if i + 1 < |bs| {
      LaidRange(bs, len, i + 1);
    }
  }

  lemma {:induction false} LaidApart(bs: seq<Block>, len: nat, i: nat, k: nat)
    requires Laid(bs, len) && i < k < |bs|
    ensures NewEnd(bs, len, i) <= bs[k].start
  {
    assert LaidBlock(bs, len, k - 1);
    if i + 1 < k {
      LaidApart(bs, len, i, k - 1);
    }
  }

  /** A byte of the operand of block i's jump. */
  ghost predicate IsOperand(bs: seq<Block>, i: nat, x: int)
    requires i < |bs|
  {
    bs[i].jumpTarget.Some? && bs[i].jumpOffset < x < bs[i].jumpOffset + JumpSize(bs[i])
  }

  ghost predicate InOperand(bs: seq<Block>, n: nat, x: int)
    requires n <= |bs|
  {
    exists i :: 0 <= i < n && IsOperand(bs, i, x)
  }

  /** The operand of block i's jump is the low byte of d, or all of it. */
  ghost predicate Operand(c: seq<Byte>, bs: seq<Block>, i: nat, d: int)
    requires i < |bs|
  {
    var at := bs[i].jumpOffset;
    && 0 <= at && at + JumpSize(bs[i]) <= |c|
    && if bs[i].jump1 then Signed1(c[at + 1]) == d <==> InByte(d)
       else Signed4(c[at + 1], c[at + 2], c[at + 3], c[at + 4]) == d
  }

  lemma OperandsApart(bs: seq<Block>, len: nat, k: nat, i: nat)
    requires Laid(bs, len) && k < i < |bs| && bs[k].jumpTarget.Some?
    ensures forall x :: IsOperand(bs, i, x) ==> x > bs[k].jumpOffset + JumpSize(bs[k])
  {
    assert LaidBlock(bs, len, k) && LaidBlock(bs, len, i);
    LaidApart(bs, len, k, i);
  }


  /** Blocks from i on have been moved, and the code of those before i is still at its old place. */
  ghost predicate MovedFrom(c: seq<Byte>, d: seq<Byte>, first: seq<Block>, bs: seq<Block>, now: seq<Block>, len: nat, i: nat)
    requires |first| == |bs|
  {
    && |now| == |bs| && i <= |bs|
    && (i > 0 ==> forall x :: 0 <= x < End(first, len, i - 1) ==> x < |c| && x < |d| && d[x] == c[x])
    && (forall k :: 0 <= k < i ==> now[k] == bs[k])
    && (forall k :: i <= k < |bs| ==> now[k] == Carried(bs[k]))
    && (forall k: nat :: i <= k < |bs| ==> BlockMoved(c, d, first, bs, len, k))
  }

  lemma AllToMove(c: seq<Byte>, d: seq<Byte>, first: seq<Block>, bs: seq<Block>, len: nat)
    requires |first| == |bs| && first != [] && End(first, len, |first| - 1) == len <= |c| && len <= |d| && d[..len] == c[..len]
    ensures MovedFrom(c, d, first, bs, bs, len, |bs|)
  {
    forall x | 0 <= x < len ensures d[x] == c[x] {
      assert d[..len][x] == c[..len][x];
    }
  }

  lemma AllMoved(c: seq<Byte>, d: seq<Byte>, first: seq<Block>, bs: seq<Block>, now: seq<Block>, len: nat)
    requires |first| == |bs| && MovedFrom(c, d, first, bs, now, len, 0)
    ensures |now| == |bs| && (forall k :: 0 <= k < |bs| ==> now[k] == Carried(bs[k]))
    ensures forall k: nat :: k < |bs| ==> BlockMoved(c, d, first, bs, len, k)
  {
  }

  lemma PlacedLength(first: seq<Block>, bs: seq<Block>)
    requires Placed(first, bs)
    ensures |bs| == |first|
  {
  }

  lemma EndOfCode(first: seq<Block>, len: nat)
    requires Emitted(first, len)
    ensures first != [] && End(first, len, |first| - 1) == len
  {
  }

  lemma BlockBefore(first: seq<Block>, len: nat, i: nat)
    requires Emitted(first, len) && i < |first|
    ensures first[i].originalStart == if i == 0 then 0 else End(first, len, i - 1)
  {
  }

  /** A block whose jump has moved with it. */
  ghost function Carried(b: Block): Block {
    b.(jumpOffset := b.jumpOffset + (b.start - b.originalStart))
  }

  /** The code of block i, found at its old place in c, is at its new place in d. */
  ghost predicate BlockMoved(c: seq<Byte>, d: seq<Byte>, first: seq<Block>, bs: seq<Block>, len: nat, i: nat)
    requires i < |first| == |bs|
  {
    var n := End(first, len, i) - first[i].originalStart;
    && 0 <= n && 0 <= bs[i].start && bs[i].start + n <= |d| && first[i].originalStart + n <= |c|
    && d[bs[i].start..bs[i].start + n] == c[first[i].originalStart..first[i].originalStart + n]
  }

  /** Where block i ends once moved. */
  ghost function NewEnd(bs: seq<Block>, len: nat, i: nat): int
    requires i < |bs|
  {
    if i + 1 < |bs| then bs[i + 1].start else len
  }

  /** A moved block starts no lower than before and ends below the next one. */
  lemma BlockRoom(first: seq<Block>, bs: seq<Block>, len: nat, i: nat)
    requires Emitted(first, len) && Placed(first, bs) && i < |first|
    ensures bs[i].originalStart == first[i].originalStart <= bs[i].start
    ensures first[i].originalStart <= End(first, len, i) <= len
    ensures var top := len + Growth(first, bs, |first|);
            bs[i].start + (End(first, len, i) - first[i].originalStart) <= NewEnd(bs, top, i) <= top
  {
    hide Growth;
    assert GrownBlock(first[i], bs[i]) && EmittedBlock(first, len, i);
    EndsBelow(first, len, i);
    GrowthRises(first, bs, i, |first|);
    if i + 1 < |first| {
      assert EmittedBlock(first, len, i + 1);
      GrowthRises(first, bs, i, i + 1);
      GrowthRises(first, bs, i + 1, |first|);
      EndsBelow(first, len, i + 1);
    }
  }

  lemma StartsApart(first: seq<Block>, bs: seq<Block>, len: nat, i: nat, k: nat)
    requires Emitted(first, len) && Placed(first, bs) && i < k < |first|
    ensures bs[i].start + (End(first, len, i) - first[i].originalStart) <= bs[k].start
  {
    hide Growth;
    assert EmittedBlock(first, len, i) && EmittedBlock(first, len, k);
    StartsRise(first, len, i, k);
    GrowthRises(first, bs, i, k);
  }

  /** Moving block i puts its code in place and leaves that of the blocks after it. */
  lemma MovedMore(c: seq<Byte>, d: seq<Byte>, e: seq<Byte>, first: seq<Block>, bs: seq<Block>, len: nat, i: nat)
    requires Emitted(first, len) && Placed(first, bs) && i < |first| == |bs| && len <= |c|
    requires |e| == |d| >= len + Growth(first, bs, |first|)
    requires forall x :: 0 <= x < End(first, len, i) ==> x < |d| && x < |c| && d[x] == c[x]
    requires forall k: nat :: i < k < |bs| ==> BlockMoved(c, d, first, bs, len, k)
    requires Written(d, e, bs[i].start, first[i].originalStart, End(first, len, i) - first[i].originalStart)
    ensures forall k: nat :: i <= k < |bs| ==> BlockMoved(c, e, first, bs, len, k)
    ensures forall x :: 0 <= x < first[i].originalStart ==> x < |e| && x < |c| && e[x] == c[x]
  {
    hide Emitted, Placed, Growth, BlockMoved;
    BlockRoom(first, bs, len, i);
    MovedOne(c, d, e, first, bs, len, i);
    forall k: nat | i < k < |bs| ensures BlockMoved(c, e, first, bs, len, k) {
      StartsApart(first, bs, len, i, k);
      KeptOne(c, d, e, first, bs, len, i, k);
    }
  }

  /** e is d with n entries copied up from src to dst. */
  ghost predicate Written(d: seq<Byte>, e: seq<Byte>, dst: int, src: int, n: int) {
    && |e| == |d| && 0 <= src <= dst && 0 <= n && dst + n <= |d|
    && e[dst..dst + n] == d[src..src + n]
    && forall x :: 0 <= x < |e| && !(dst <= x < dst + n) ==> e[x] == d[x]
  }

  lemma MovedOne(c: seq<Byte>, d: seq<Byte>, e: seq<Byte>, first: seq<Block>, bs: seq<Block>, len: nat, i: nat)
    requires i < |first| == |bs| && first[i].originalStart <= End(first, len, i) <= len <= |c|
    requires forall x :: 0 <= x < End(first, len, i) ==> x < |d| && x < |c| && d[x] == c[x]
    requires Written(d, e, bs[i].start, first[i].originalStart, End(first, len, i) - first[i].originalStart)
    ensures BlockMoved(c, e, first, bs, len, i)
  {
    var a, b := first[i].originalStart, End(first, len, i);
    assert d[a..b] == c[a..b];
  }

  lemma KeptOne(c: seq<Byte>, d: seq<Byte>, e: seq<Byte>, first: seq<Block>, bs: seq<Block>, len: nat, i: nat, k: nat)
    requires i < k < |first| == |bs| && BlockMoved(c, d, first, bs, len, k)
    requires Written(d, e, bs[i].start, first[i].originalStart, End(first, len, i) - first[i].originalStart)
    requires bs[i].start + (End(first, len, i) - first[i].originalStart) <= bs[k].start
    ensures BlockMoved(c, e, first, bs, len, k)
  {
    var n := End(first, len, k) - first[k].originalStart;
    assert e[bs[k].start..bs[k].start + n] == d[bs[k].start..bs[k].start + n];
  }

  /** Blocks emitted, placed and carried are laid out one after the other. */
  lemma LaidOut(first: seq<Block>, bs: seq<Block>, len: nat, now: seq<Block>)
    requires Emitted(first, len) && Placed(first, bs) && |now| == |bs| == |first|
    requires forall i :: 0 <= i < |bs| ==> now[i] == Carried(bs[i])
    ensures Laid(now, len + Growth(first, bs, |first|))
  {
    var top: nat := len + Growth(first, bs, |first|);
    forall i: nat | i < |now| ensures LaidBlock(now, top, i) {
      LaidOne(first, bs, len, now, i);
    }
  }

  lemma LaidOne(first: seq<Block>, bs: seq<Block>, len: nat, now: seq<Block>, i: nat)
    requires Emitted(first, len) && Placed(first, bs) && i < |now| == |bs| == |first|
    requires forall k :: 0 <= k < |bs| ==> now[k] == Carried(bs[k])
    ensures LaidBlock(now, len + Growth(first, bs, |first|), i)
  {
    BlockRoom(first, bs, len, i);
    assert GrownBlock(first[i], bs[i]) && EmittedBlock(first, len, i);
    GrowthStep(first, bs, i);
    if i + 1 < |now| {
      assert GrownBlock(first[i + 1], bs[i + 1]) && EmittedBlock(first, len, i + 1);
    }
    NewEndIs(first, bs, len, now, i);
  }

  lemma NewEndIs(first: seq<Block>, bs: seq<Block>, len: nat, now: seq<Block>, i: nat)
    requires Emitted(first, len) && Placed(first, bs) && i < |now| == |bs| == |first|
    requires forall k :: 0 <= k < |bs| ==> now[k] == Carried(bs[k])
    ensures NewEnd(now, len + Growth(first, bs, |first|), i) == End(first, len, i) + Growth(first, bs, i + 1)
  {
    hide Growth;
    if i + 1 < |now| {
      assert EmittedBlock(first, len, i + 1);
    }
  }

  lemma GrowthSmall(was: seq<Block>, now: seq<Block>)
    requires |was| == |now|
    ensures 0 <= Growth(was, now, |was|) <= 3 * |was|
  {
  }

  lemma CarriedDefined(labels: Labels, bs: seq<Block>, now: seq<Block>)
    requires Defined(labels, bs) && |now| == |bs| && forall i :: 0 <= i < |bs| ==> now[i] == Carried(bs[i])
    ensures Defined(labels, now)
  {
    forall i | 0 <= i < |now| ensures DefinedIn(labels, now[i], |now|) {
      assert DefinedIn(labels, bs[i], |bs|);
    }
  }

  /** The code of block i, in c, is in its place in e, but for operands. */
  ghost predicate BlockKept(c: seq<Byte>, e: seq<Byte>, first: seq<Block>, now: seq<Block>, len: nat, i: nat)
    requires i < |first| == |now|
  {
    var n := End(first, len, i) - first[i].originalStart;
    && 0 <= n && 0 <= now[i].start && now[i].start + n <= |e| && first[i].originalStart + n <= |c|
    && forall x :: now[i].start <= x < now[i].start + n && !InOperand(now, |now|, x) ==>
         e[x] == c[first[i].originalStart + (x - now[i].start)]
  }

  lemma KeptBlock(patched: seq<Byte>, c: seq<Byte>, e: seq<Byte>, first: seq<Block>, bs: seq<Block>, now: seq<Block>, len: nat, i: nat)
    requires i < |first| == |bs| == |now| && BlockMoved(patched, c, first, bs, len, i)
    requires now[i].start == bs[i].start && |e| == |c|
    requires forall x :: 0 <= x < |e| && !InOperand(now, |now|, x) ==> e[x] == c[x]
    ensures BlockKept(patched, e, first, now, len, i)
  {
    hide InOperand;
    var a, n := first[i].originalStart, End(first, len, i) - first[i].originalStart;
    var p, q := c[bs[i].start..bs[i].start + n], patched[a..a + n];
    forall x | now[i].start <= x < now[i].start + n && !InOperand(now, |now|, x)
      ensures e[x] == patched[a + (x - now[i].start)]
    {
      assert p[x - bs[i].start] == q[x - bs[i].start];
    }
  }

  /** No jump's opcode is a byte of an operand. */
  lemma NotAnOperand(bs: seq<Block>, len: nat, i: nat)
    requires Laid(bs, len) && i < |bs| && bs[i].jumpTarget.Some?
    ensures !InOperand(bs, |bs|, bs[i].jumpOffset)
  {
    forall k: nat | k < |bs| ensures !IsOperand(bs, k, bs[i].jumpOffset) {
      assert LaidBlock(bs, len, i) && LaidBlock(bs, len, k);
      if k < i {
        LaidApart(bs, len, k, i);
      } else if i < k {
        LaidApart(bs, len, i, k);
      }
    }
  }

  /** A jump that has not grown is not where another one has. */
  lemma NotGrown(first: seq<Block>, r: seq<Block>, len: nat, i: nat)
    requires Emitted(first, len) && Grown(first, r) && i < |first| && first[i].jumpTarget.Some? && r[i].jump1 == first[i].jump1
    ensures !GrownAt(first, r, first[i].jumpOffset)
  {
    forall k: nat | k < |first| && first[k].jump1 != r[k].jump1 ensures first[k].jumpOffset != first[i].jumpOffset {
      assert EmittedBlock(first, len, i) && EmittedBlock(first, len, k) && GrownBlock(first[k], r[k]);
      if k < i {
        StartsRise(first, len, k, i);
      } else {
        StartsRise(first, len, i, k);
      }
    }
  }

  /** The opcode of a jump, after all, is that of the jump emitted, in the form that its operand has. */
  lemma OpcodeKept(c: seq<Byte>, patched: seq<Byte>, e: seq<Byte>, first: seq<Block>, r: seq<Block>, now: seq<Block>,
                   len: nat, top: nat, i: nat)
    requires Emitted(first, len) && Placed(first, r) && |first| == |now| && Patched(c, patched, first, r) && Laid(now, top)
    requires i < |first| && now[i] == Carried(r[i]) && BlockKept(patched, e, first, now, len, i)
    requires now[i].jumpTarget.Some? && Encoded(c, first, i)
    ensures Encoded(e, now, i) && SameJump(c, first[i], e, now[i])
  {
    hide Emitted, Laid, InOperand, Growth;
    JumpStays(first, r, now, len, top, i);
    var x, y := first[i].jumpOffset, now[i].jumpOffset;
    assert e[y] == patched[x];
    if first[i].jump1 != r[i].jump1 {
      assert GrownAt(first, r, x);
    } else {
      NotGrown(first, r, len, i);
    }
  }

  /** Where the opcode of a jump is, before and after. */
  lemma JumpStays(first: seq<Block>, r: seq<Block>, now: seq<Block>, len: nat, top: nat, i: nat)
    requires Emitted(first, len) && Placed(first, r) && |first| == |now| && Laid(now, top)
    requires i < |first| && now[i] == Carried(r[i]) && now[i].jumpTarget.Some?
    ensures !InOperand(now, |now|, now[i].jumpOffset) && GrownBlock(first[i], r[i])
    ensures first[i].originalStart <= first[i].jumpOffset < End(first, len, i) <= len
    ensures now[i].jumpOffset - now[i].start == first[i].jumpOffset - first[i].originalStart && now[i].jump1 == r[i].jump1
  {
    hide Growth;
    assert GrownBlock(first[i], r[i]) && EmittedBlock(first, len, i);
    EndsBelow(first, len, i);
    NotAnOperand(now, top, i);
  }

  lemma ShortLands(labels: Labels, first: seq<Block>, len: nat, r: seq<Block>, now: seq<Block>, i: nat)
    requires OnBlocks(labels, |first|) && Defined(labels, first) && Emitted(first, len) && i < |first| == |r| == |now|
    requires r == Relax(labels, first).0 && r[i].jump1 && forall k :: 0 <= k < |r| ==> now[k] == Carried(r[k])
    ensures r[i].jumpTarget.Some? && r[i].jumpTarget.value in labels
    ensures var t := labels[r[i].jumpTarget.value];
            t > i ==> InByte(now[t].start - now[i].jumpOffset)
  {
    ShortJumps(labels, first, len, i);
  }

  /** With what has grown in between, the jump of block i is at most 128 bytes from block t. */
  ghost predicate DownInReach(first: seq<Block>, r: seq<Block>, t: nat, i: nat)
    requires t <= i < |first| == |r|
  {
    first[i].jumpOffset - first[t].originalStart + Growth(first, r, i) - Growth(first, r, t) <= 0x80
  }

  /** It is even if all the short jumps in between grow. */
  ghost predicate RoomToGrow(first: seq<Block>, t: nat, i: nat)
    requires t <= i < |first|
  {
    first[i].jumpOffset - first[t].originalStart + 3 * ShortsIn(first, t, i) <= 0x80
  }

  lemma DownLands(labels: Labels, first: seq<Block>, len: nat, r: seq<Block>, now: seq<Block>, i: nat)
    requires OnBlocks(labels, |first|) && Defined(labels, first) && Emitted(first, len) && i < |first| == |r| == |now|
    requires r == Relax(labels, first).0 && r[i].jump1 && forall k :: 0 <= k < |r| ==> now[k] == Carried(r[k])
    ensures r[i].jumpTarget.Some? && r[i].jumpTarget.value in labels
    ensures var t := labels[r[i].jumpTarget.value];
            t <= i ==> (InByte(now[t].start - now[i].jumpOffset) <==> DownInReach(first, r, t, i))
    ensures var t := labels[r[i].jumpTarget.value];
            t <= i && RoomToGrow(first, t, i) ==> InByte(now[t].start - now[i].jumpOffset)
  {
    hide Relax;
    ShortJumpsDown(labels, first, len, i);
    RoomDown(labels, first, len, i);
    RelaxPlaces(labels, first);
    assert GrownBlock(first[i], r[i]);
  }
}
