/** What a basic block of assembled instructions does to the operand stack. */
module StackUse {

  /** An instruction pops some operands and then pushes some. */
  datatype Op = Op(consumed: nat, produced: nat)

  function Last<T>(s: seq<T>): T
    requires s != []
  {
    s[|s| - 1]
  }

  function Front<T>(s: seq<T>): seq<T>
    requires s != []
  {
    s[..|s| - 1]
  }

  ghost function Upto(n: nat): (s: set<nat>)
    ensures forall b: nat :: b in s <==> b < n
  {
    if n == 0 then {} else Upto(n - 1) + {n - 1}
  }

  /** How much deeper the stack is after the instructions. */
  function Net(ops: seq<Op>): int {
    if ops == [] then 0 else Net(Front(ops)) - Last(ops).consumed + Last(ops).produced
  }

  /** The lowest the stack gets, relative to where it was. */
  function Lowest(ops: seq<Op>): (low: int)
    ensures low <= 0
  {
    if ops == [] then 0
    else
      var low := Net(Front(ops)) - Last(ops).consumed;
      if low < Lowest(Front(ops)) then low else Lowest(Front(ops))
  }

  /** The highest the stack gets. */
  function Highest(ops: seq<Op>): (high: int)
    ensures high >= 0
  {
    if ops == [] then 0
    else if Net(ops) > Highest(Front(ops)) then Net(ops) else Highest(Front(ops))
  }

  /**
   * Running the instructions one after the other on a stack of depth d, no
   * instruction finds too few operands and none leaves more than limit.
   */
  ghost predicate RunsSafely(d: int, ops: seq<Op>, limit: int)
    decreases |ops|
  {
    ops == [] ||
    var left := d - ops[0].consumed;
    left >= 0 && left + ops[0].produced <= limit && RunsSafely(left + ops[0].produced, ops[1..], limit)
  }

  lemma {:induction false} RunsOneMore(d: int, ops: seq<Op>, op: Op, limit: int)
    ensures RunsSafely(d, ops + [op], limit) <==>
      (RunsSafely(d, ops, limit) && RunsSafely(d + Net(ops), [op], limit))
    decreases |ops|
  {
    if ops == [] {
      assert ops + [op] == [op];
    } else {
      var next := d - ops[0].consumed + ops[0].produced;
      assert (ops + [op])[1..] == ops[1..] + [op];
      RunsOneMore(next, ops[1..], op, limit);
      NetFromFront(ops);
    }
  }

  lemma {:induction false} NetFromFront(ops: seq<Op>)
    requires ops != []
    ensures Net(ops) == Net(ops[1..]) - ops[0].consumed + ops[0].produced
  {
    if |ops| == 1 {
      assert Front(ops) == [] && ops[1..] == [];
    } else {
      assert Front(ops)[1..] == Front(ops[1..]);
      NetFromFront(Front(ops));
    }
  }

  /** The three numbers kept for a block say exactly how it runs from any depth. */
  lemma {:induction false} SafeIffBounds(d: int, ops: seq<Op>, limit: int)
    requires 0 <= d <= limit
    ensures RunsSafely(d, ops, limit) <==> 0 <= d + Lowest(ops) && d + Highest(ops) <= limit
    decreases |ops|
  {
    if ops != [] {
      assert ops == Front(ops) + [Last(ops)];
      SafeIffBounds(d, Front(ops), limit);
      RunsOneMore(d, Front(ops), Last(ops), limit);
    }
  }

  // ---------------------------------------------------------------- keeping the numbers

  const INT_MIN: int := -0x8000_0000

  /** An entry of the instruction table. */
  datatype Instruction = Instruction(operandsConsumed: int, operandsProduced: int, dictGetDef: bool)

  /** Negative numbers of operands have a meaning only where the table uses them. */
  predicate InTable(i: Instruction) {
    && (i.operandsConsumed >= 0 || i.operandsConsumed == INT_MIN)
    && (i.operandsProduced < 0 ==> i.operandsConsumed == INT_MIN)
  }

  class BasicBlock {
    var minStackDepth: int
    var maxStackDepth: int
    var finalStackDepth: int
    /** The instructions emitted so far. */
    ghost var ops: seq<Op>

    ghost predicate Valid()
      reads this
    {
      minStackDepth == Lowest(ops) && maxStackDepth == Highest(ops) && finalStackDepth == Net(ops)
    }

    constructor ()
      ensures Valid() && ops == []
    {
      minStackDepth, maxStackDepth, finalStackDepth := 0, 0, 0;
      ops := [];
    }

    method AdjustStackDepth(consumed: nat, produced: nat)
      requires Valid()
      modifies this
      ensures Valid() && ops == old(ops) + [Op(consumed, produced)]
    {
      assert Front(ops + [Op(consumed, produced)]) == ops;
      var depth := finalStackDepth;
      depth := depth - consumed;
      if depth < minStackDepth {
        minStackDepth := depth;
      }
      depth := depth + produced;
      if depth > maxStackDepth {
        maxStackDepth := depth;
      }
      finalStackDepth := depth;
      ops := ops + [Op(consumed, produced)];
    }

    /**
     * Counts an instruction with count operands: a variadic one consumes them
     * all (a dictionary lookup with a default one more), and one that leaves
     * operands alone puts back as many as it consumed and adds the rest.
     */
    method UpdateStackReqs(i: Instruction, count: nat)
      requires Valid() && InTable(i)
      modifies this
      ensures Valid() && ops != [] && Front(ops) == old(ops)
      ensures i.operandsConsumed >= 0 ==> Last(ops).consumed == i.operandsConsumed
      ensures i.operandsConsumed == INT_MIN ==> Last(ops).consumed == if i.dictGetDef then count + 1 else count
      ensures i.operandsProduced >= 0 ==> Last(ops).produced == i.operandsProduced
      ensures i.operandsProduced < 0 ==> Net(ops) == old(Net(ops)) - 1 - i.operandsProduced
    {
      var consumed := i.operandsConsumed;
      var produced := i.operandsProduced;
      if consumed == INT_MIN {
        consumed := count;
        if i.dictGetDef {
          consumed := consumed + 1;
        }
      }
      if produced < 0 {
        produced := consumed - produced - 1;
      }
      AdjustStackDepth(consumed, produced);
    }
  }
}
