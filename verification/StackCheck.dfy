/** The assembler's audit of stack depths over the whole flow graph. */
module StackCheck {
  import opened StackUse

  datatype Option<T> = None | Some(value: T)

  /**
   * A finished basic block. Control may fall through to the next one, jump to
   * a label, or go to the labels of a jump table.
   */
  datatype Block = Block(
    ops: seq<Op>, fallthru: bool, jumpTarget: Option<string>, jumpTable: seq<string>, enclosingCatch: Option<nat>)

  datatype Graph = Graph(blocks: seq<Block>, labels: map<string, nat>)

  /** All labels are defined, and the last block does not fall through. */
  ghost predicate Linked(g: Graph) {
    && g.blocks != [] && (forall l :: l in g.labels ==> g.labels[l] < |g.blocks|)
    && forall b :: 0 <= b < |g.blocks| ==> LinkedBlock(g, b)
  }

  ghost predicate LinkedBlock(g: Graph, b: nat)
    requires b < |g.blocks|
  {
    var k := g.blocks[b];
    && (k.fallthru ==> b + 1 < |g.blocks|) && (k.jumpTarget.Some? ==> k.jumpTarget.value in g.labels)
    && (forall i :: 0 <= i < |k.jumpTable| ==> k.jumpTable[i] in g.labels)
    && (k.enclosingCatch.Some? ==> k.enclosingCatch.value < |g.blocks|)
  }

  /** Control may pass from b to s. */
  ghost predicate Edge(g: Graph, b: nat, s: nat)
    requires b < |g.blocks| && LinkedBlock(g, b)
  {
    var k := g.blocks[b];
    || (k.fallthru && s == b + 1)
    || (k.jumpTarget.Some? && s == g.labels[k.jumpTarget.value])
    || (exists i :: 0 <= i < |k.jumpTable| && s == g.labels[k.jumpTable[i]])
  }

  /** A way of control from the first block. */
  ghost predicate IsPath(g: Graph, p: seq<nat>)
    requires Linked(g)
  {
    && p != [] && p[0] == 0 && (forall i :: 0 <= i < |p| ==> p[i] < |g.blocks|)
    && forall i :: 0 < i < |p| ==> Edge(g, p[i - 1], p[i])
  }

  /** The depth of the stack on entry to the last block of a path. */
  ghost function Depth(g: Graph, p: seq<nat>): int
    requires Linked(g) && IsPath(g, p)
  {
    if |p| == 1 then 0 else Depth(g, Front(p)) + Net(g.blocks[p[|p| - 2]].ops)
  }

  /** On no path does any block pop more than there is. */
  ghost predicate NoUnderflow(g: Graph)
    requires Linked(g)
  {
    forall p: seq<nat> :: IsPath(g, p) ==> Depth(g, p) + Lowest(g.blocks[Last(p)].ops) >= 0
  }

  /** All paths to a block bring it the same depth. */
  ghost predicate Consistent(g: Graph)
    requires Linked(g)
  {
    forall p: seq<nat>, q: seq<nat> :: IsPath(g, p) && IsPath(g, q) && Last(p) == Last(q) ==> Depth(g, p) == Depth(g, q)
  }

  /** No block pops below the depth at which the catch around it began. */
  ghost predicate CatchesKept(g: Graph)
    requires Linked(g)
  {
    forall p: seq<nat>, i :: IsPath(g, p) && 0 <= i < |p| - 1 && g.blocks[Last(p)].enclosingCatch == Some(p[i]) ==>
      KeepsCatch(g, p, i)
  }

  ghost predicate KeepsCatch(g: Graph, p: seq<nat>, i: nat)
    requires Linked(g) && IsPath(g, p) && i < |p| - 1
  {
    IsPath(g, p[..i + 1]) &&
    Depth(g, p) + Lowest(g.blocks[Last(p)].ops) >= Depth(g, p[..i + 1]) + Net(g.blocks[p[i]].ops)
  }

  ghost predicate Balanced(g: Graph)
    requires Linked(g)
  {
    NoUnderflow(g) && Consistent(g) && CatchesKept(g)
  }

  /** Control reaches a block only through the one that began the catch around it. */
  ghost predicate CatchesEntered(g: Graph)
    requires Linked(g)
  {
    forall p: seq<nat> :: IsPath(g, p) && g.blocks[Last(p)].enclosingCatch.Some? ==>
      g.blocks[Last(p)].enclosingCatch.value in Front(p)
  }

  // ---------------------------------------------------------------- depths found so far

  /** The entry depths of the blocks visited. */
  type Depths = map<nat, int>

  ghost predicate Extends(m: Depths, n: Depths) {
    forall b :: b in m ==> b in n && n[b] == m[b]
  }

  ghost predicate Brings(g: Graph, p: seq<nat>, b: nat, depth: int)
    requires Linked(g)
  {
    IsPath(g, p) && Last(p) == b && Depth(g, p) == depth
  }

  /** Every depth found is that of some path. */
  ghost predicate Witnessed(g: Graph, m: Depths)
    requires Linked(g)
  {
    forall b :: b in m ==> b < |g.blocks| && exists p: seq<nat> :: Brings(g, p, b, m[b])
  }

  /** A block was found in order, and its successors have the depths it leaves them. */
  ghost predicate Done(g: Graph, m: Depths, maxDepth: int, b: nat)
    requires Linked(g)
  {
    b in m && b < |g.blocks| && InOrder(g, m, maxDepth, b) &&
    forall s: nat :: Edge(g, b, s) ==> s in m && m[s] == m[b] + Net(g.blocks[b].ops)
  }

  /** The depth that block b leaves is the entry depth of every block that control may pass to. */
  ghost predicate PassedOn(g: Graph, m: Depths, b: nat)
    requires b in m && b < |g.blocks|
  {
    var k, depth := g.blocks[b], m[b] + Net(g.blocks[b].ops);
    && (k.fallthru ==> b + 1 in m && m[b + 1] == depth)
    && (k.jumpTarget.Some? ==>
          k.jumpTarget.value in g.labels && g.labels[k.jumpTarget.value] in m && m[g.labels[k.jumpTarget.value]] == depth)
    && forall i :: 0 <= i < |k.jumpTable| ==>
         k.jumpTable[i] in g.labels && g.labels[k.jumpTable[i]] in m && m[g.labels[k.jumpTable[i]]] == depth
  }

  lemma DonePasses(g: Graph, m: Depths, maxDepth: int, b: nat)
    requires Linked(g) && Done(g, m, maxDepth, b)
    ensures PassedOn(g, m, b)
  {
    var k := g.blocks[b];
    assert LinkedBlock(g, b);
    forall i | 0 <= i < |k.jumpTable| ensures g.labels[k.jumpTable[i]] in m && m[g.labels[k.jumpTable[i]]] == m[b] + Net(k.ops) {
      assert Edge(g, b, g.labels[k.jumpTable[i]]);
    }
    if k.jumpTarget.Some? {
      assert Edge(g, b, g.labels[k.jumpTarget.value]);
    }
    if k.fallthru {
      assert Edge(g, b, b + 1);
    }
  }

  ghost predicate InOrder(g: Graph, m: Depths, maxDepth: int, b: nat)
    requires b < |g.blocks| && b in m
  {
    var k := g.blocks[b];
    && m[b] + Lowest(k.ops) >= 0 && m[b] + Highest(k.ops) <= maxDepth
    && (k.enclosingCatch.Some? ==>
          k.enclosingCatch.value in m && k.enclosingCatch.value < |g.blocks| &&
          m[b] + Lowest(k.ops) >= m[k.enclosingCatch.value] + Net(g.blocks[k.enclosingCatch.value].ops))
  }

  lemma StaysDone(g: Graph, m: Depths, x: int, n: Depths, y: int, b: nat)
    requires Linked(g) && Done(g, m, x, b) && Extends(m, n) && x <= y
    ensures Done(g, n, y, b)
  {
  }

  /** The greatest depth recorded is reached somewhere. */
  ghost predicate Attained(g: Graph, maxDepth: int)
    requires Linked(g)
  {
    maxDepth == 0 || exists p: seq<nat> :: IsPath(g, p) && Depth(g, p) + Highest(g.blocks[Last(p)].ops) == maxDepth
  }

  lemma LongerPath(g: Graph, p: seq<nat>, b: nat, depth: int, s: nat)
    requires Linked(g) && Brings(g, p, b, depth) && Edge(g, b, s)
    ensures s < |g.blocks| && Brings(g, p + [s], s, depth + Net(g.blocks[b].ops))
  {
    var q := p + [s];
    assert LinkedBlock(g, b);
    forall i | 0 < i < |q| ensures Edge(g, q[i - 1], q[i]) {
      if i < |p| {
        assert Edge(g, p[i - 1], p[i]);
      }
    }
    assert Front(q) == p;
  }

  lemma ShorterPath(g: Graph, p: seq<nat>, i: nat)
    requires Linked(g) && IsPath(g, p) && i < |p|
    ensures IsPath(g, p[..i + 1])
  {
    var q := p[..i + 1];
    forall j | 0 < j < |q| ensures Edge(g, q[j - 1], q[j]) {
      assert Edge(g, p[j - 1], p[j]);
    }
  }

  // ---------------------------------------------------------------- what a failure means

  lemma Underflow(g: Graph, p: seq<nat>, b: nat, depth: int)
    requires Linked(g) && Brings(g, p, b, depth) && depth + Lowest(g.blocks[b].ops) < 0
    ensures !Balanced(g)
  {
  }

  lemma TwoDepths(g: Graph, m: Depths, p: seq<nat>, b: nat, depth: int)
    requires Linked(g) && Witnessed(g, m) && b in m && m[b] != depth && Brings(g, p, b, depth)
    ensures !Balanced(g)
  {
    var q: seq<nat> :| Brings(g, q, b, m[b]);
  }

  /** The block that began the enclosing catch has been visited. */
  lemma CatchVisited(g: Graph, m: Depths, p: seq<nat>, b: nat, depth: int)
    requires Linked(g) && CatchesEntered(g) && Brings(g, p, b, depth)
    requires (forall i :: 0 <= i < |p| ==> p[i] in m) && g.blocks[b].enclosingCatch.Some?
    ensures g.blocks[b].enclosingCatch.value in m
  {
  }

  /** A block that pops below its enclosing catch. */
  lemma CatchLost(g: Graph, m: Depths, p: seq<nat>, b: nat, depth: int, c: nat)
    requires Linked(g) && CatchesEntered(g) && Witnessed(g, m) && Brings(g, p, b, depth)
    requires g.blocks[b].enclosingCatch == Some(c) && c in m && c < |g.blocks|
    requires depth + Lowest(g.blocks[b].ops) < m[c] + Net(g.blocks[c].ops)
    ensures !Balanced(g)
  {
    assert c in Front(p);
    var i :| 0 <= i < |p| - 1 && p[i] == c;
    ShorterPath(g, p, i);
    var q: seq<nat> :| Brings(g, q, c, m[c]);
    LostOrTwo(g, p, i, q);
  }

  lemma LostOrTwo(g: Graph, p: seq<nat>, i: nat, q: seq<nat>)
    requires Linked(g) && IsPath(g, p) && i < |p| - 1 && IsPath(g, p[..i + 1]) && IsPath(g, q) && Last(q) == p[i]
    requires g.blocks[Last(p)].enclosingCatch == Some(p[i])
    requires Depth(g, p) + Lowest(g.blocks[Last(p)].ops) < Depth(g, q) + Net(g.blocks[p[i]].ops)
    ensures !Balanced(g)
  {
    hide IsPath, Depth, NoUnderflow;
    assert Last(p[..i + 1]) == p[i];
    if Depth(g, p[..i + 1]) == Depth(g, q) {
      assert !KeepsCatch(g, p, i);
    }
  }

  class AssemblyEnv {
    const g: Graph
    /** initialStackDepth of the blocks that have been visited. */
    var initial: Depths
    /** The blocks that passed control first to the blocks visited. */
    var predecessor: map<nat, int>
    var maxDepth: int

    constructor (g: Graph)
      ensures this.g == g
    {
      this.g := g;
      initial, predecessor, maxDepth := map[], map[], 0;
    }

    ghost function Unvisited(): set<nat>
      reads this
    {
      Upto(|g.blocks|) - initial.Keys
    }

    ghost predicate Valid()
      reads this
    {
      Linked(g) && CatchesEntered(g) && Witnessed(g, initial) && Attained(g, maxDepth)
    }

    /** Checks a block reached along a path, and those it leads to. */
    method CheckBasicBlock(b: nat, pred: int, depth: int, ghost p: seq<nat>) returns (ok: bool)
      requires Valid() && Brings(g, p, b, depth) && forall i :: 0 <= i < |p| - 1 ==> p[i] in initial
      modifies this
      ensures Valid() && Extends(old(initial), initial) && old(maxDepth) <= maxDepth
      ensures ok ==> b in initial && initial[b] == depth
      ensures ok ==> forall c: nat :: c in initial && c !in old(initial) ==> Done(g, initial, maxDepth, c)
      ensures !ok ==> !Balanced(g)
      decreases Unvisited(), 1
    {
      hide IsPath, Depth, Attained, CatchesEntered, Balanced, Done, Witnessed;
      if b in initial {
        if initial[b] != depth {
          TwoDepths(g, initial, p, b, depth);
        }
        return initial[b] == depth;
      }
      Witness(g, initial, p, b, depth);
      initial, predecessor := initial[b := depth], predecessor[b := pred];
      AllVisited(p, b, depth);
      ok := InBounds(b, depth, p);
      if !ok {
        return;
      }
      RaiseMax(p, b, depth);
      ok := CheckSuccessors(b, depth, p);
    }

    /** A block just visited must neither underflow the stack nor pop below its enclosing catch. */
    method InBounds(b: nat, depth: int, ghost p: seq<nat>) returns (ok: bool)
      requires Valid() && b < |g.blocks| && b in initial && initial[b] == depth && Brings(g, p, b, depth)
      requires forall i :: 0 <= i < |p| ==> p[i] in initial
      ensures ok ==> InOrder(g, initial, depth + Highest(g.blocks[b].ops), b)
      ensures !ok ==> !Balanced(g)
    {
      hide IsPath, Depth, Attained, CatchesEntered, Balanced;
      OfBlock(g, b);
      var k := g.blocks[b];
      if depth + Lowest(k.ops) < 0 {
        Underflow(g, p, b, depth);
        return false;
      }
      if k.enclosingCatch.Some? {
        CatchVisited(g, initial, p, b, depth);
        var c := k.enclosingCatch.value;
        if depth + Lowest(k.ops) < initial[c] + Net(g.blocks[c].ops) {
          CatchLost(g, initial, p, b, depth, c);
          return false;
        }
      }
      ok := true;
    }

    /** Every block of the path has been visited, with the one at its end. */
    lemma AllVisited(p: seq<nat>, b: nat, depth: int)
      requires Linked(g) && Brings(g, p, b, depth) && b in initial && forall i :: 0 <= i < |p| - 1 ==> p[i] in initial
      ensures forall i :: 0 <= i < |p| ==> p[i] in initial
    {
    }

    method RaiseMax(ghost p: seq<nat>, b: nat, depth: int)
      requires Valid() && b < |g.blocks| && Brings(g, p, b, depth)
      modifies this`maxDepth
      ensures Valid() && old(maxDepth) <= maxDepth && depth + Highest(g.blocks[b].ops) <= maxDepth
    {
      if depth + Highest(g.blocks[b].ops) > maxDepth {
        maxDepth := depth + Highest(g.blocks[b].ops);
      }
    }

    /** The blocks visited since m are done. */
    ghost predicate DoneSince(m: Depths)
      requires Linked(g)
      reads this
    {
      Extends(m, initial) && forall c: nat :: c in initial && c !in m ==> Done(g, initial, maxDepth, c)
    }

    /** The successor s of block b has been checked with the depth that b leaves. */
    ghost predicate Left(b: nat, s: nat)
      reads this
    {
      b < |g.blocks| && b in initial && s in initial && initial[s] == initial[b] + Net(g.blocks[b].ops)
    }

    /** Follows one edge of the flow graph. */
    method Follow(b: nat, s: nat, ghost p: seq<nat>, ghost m: Depths) returns (ok: bool)
      requires Valid() && b in initial && b < |g.blocks| && Brings(g, p, b, initial[b]) && LinkedBlock(g, b) && Edge(g, b, s)
      requires (forall i :: 0 <= i < |p| ==> p[i] in initial) && DoneSince(m)
      modifies this
      ensures Valid() && Extends(old(initial), initial) && old(maxDepth) <= maxDepth
      ensures ok ==> DoneSince(m) && Left(b, s)
      ensures !ok ==> !Balanced(g)
      decreases Unvisited(), 2
    {
      hide IsPath, Witnessed, Attained, CatchesEntered, Balanced, InOrder;
      LongerPath(g, p, b, initial[b], s);
      ghost var before, x := initial, maxDepth;
      ok := CheckBasicBlock(s, b, initial[b] + Net(g.blocks[b].ops), p + [s]);
      if ok {
        forall c: nat | c in initial && c !in m ensures Done(g, initial, maxDepth, c) {
          if c in before {
            StaysDone(g, before, x, initial, maxDepth, c);
          }
        }
      }
    }

    /** Checks the successors of a block: the next one, the jump target and the targets of the jump table. */
    method CheckSuccessors(b: nat, depth: int, ghost p: seq<nat>) returns (ok: bool)
      requires Valid() && b < |g.blocks| && b in initial && initial[b] == depth && Brings(g, p, b, depth)
      requires (forall i :: 0 <= i < |p| ==> p[i] in initial) && InOrder(g, initial, maxDepth, b)
      modifies this
      ensures Valid() && Extends(old(initial), initial) && old(maxDepth) <= maxDepth
      ensures ok ==> forall c: nat :: c in initial && c !in old(initial) ==> Done(g, initial, maxDepth, c)
      ensures ok ==> Done(g, initial, maxDepth, b)
      ensures !ok ==> !Balanced(g)
      decreases Unvisited(), 3
    {
      hide IsPath, Depth, Witnessed, Attained, CatchesEntered, Balanced, Done;
      ghost var m, unvisited := initial, Unvisited();
      var k := g.blocks[b];
      OfBlock(g, b);
      ok := true;
      if k.fallthru {
        ok := Follow(b, b + 1, p, m);
      }
      if ok && k.jumpTarget.Some? {
        assert Unvisited() <= unvisited;
        ok := Follow(b, g.labels[k.jumpTarget.value], p, m);
      }
      var i := 0;
      while ok && i < |k.jumpTable|
        invariant 0 <= i <= |k.jumpTable| && Valid() && Extends(m, initial) && old(maxDepth) <= maxDepth
        invariant ok ==> DoneSince(m) && (forall j :: 0 <= j < i ==> Left(b, g.labels[k.jumpTable[j]]))
        invariant ok && k.fallthru ==> Left(b, b + 1)
        invariant ok && k.jumpTarget.Some? ==> Left(b, g.labels[k.jumpTarget.value])
        invariant !ok ==> !Balanced(g)
      {
        assert Unvisited() <= unvisited;
        ok := Follow(b, g.labels[k.jumpTable[i]], p, m);
        i := i + 1;
      }
      if ok {
        AllLeft(b);
      }
    }

    /** A block in order whose successors were all checked is done. */
    lemma AllLeft(b: nat)
      requires Linked(g) && b < |g.blocks| && b in initial && InOrder(g, initial, maxDepth, b)
      requires forall s: nat :: Edge(g, b, s) ==> Left(b, s)
      ensures Done(g, initial, maxDepth, b)
    {
    }

    /**
     * Audits the whole program: succeeds exactly if on every path no block
     * underflows the stack, or pops below its enclosing catch, and every block
     * is always entered with the same depth. Then maxDepth is how deep the
     * stack gets.
     */
    method CheckStack() returns (ok: bool)
      requires Linked(g) && CatchesEntered(g)
      modifies this
      ensures ok <==> Balanced(g)
      ensures ok ==> forall p: seq<nat> :: IsPath(g, p) ==> Last(p) in initial && initial[Last(p)] == Depth(g, p)
      ensures ok ==> forall p: seq<nat> :: IsPath(g, p) ==> Depth(g, p) + Highest(g.blocks[Last(p)].ops) <= maxDepth
      ensures ok ==> Attained(g, maxDepth)
      ensures ok ==> 0 in initial && initial[0] == 0 && forall b :: b in initial ==> b < |g.blocks| && PassedOn(g, initial, b)
      ensures ok ==> forall p: seq<nat> :: IsPath(g, p) ==> RunsSafely(Depth(g, p), g.blocks[Last(p)].ops, maxDepth)
      ensures forall b :: b in initial ==> b < |g.blocks| && exists p: seq<nat> :: Brings(g, p, b, initial[b])
    {
      hide Depth, Balanced, CatchesEntered, Attained, Done, Edge, LinkedBlock, RunsSafely;
      initial, predecessor, maxDepth := map[], map[], 0;
      Start(g);
      NoneAttained(g);
      ok := CheckBasicBlock(0, -1, 0, [0]);
      if ok {
        AllRun(g, initial, maxDepth);
        forall b: nat | b in initial ensures b < |g.blocks| && PassedOn(g, initial, b) {
          IsBlock(g, initial, maxDepth, b);
          DonePasses(g, initial, maxDepth, b);
        }
        AllBalanced(g, initial, maxDepth);
      }
    }

    /**
     * Audits the exit: if control reaches the last block, it must leave one
     * operand; when it leaves none, a push of the empty string is added.
     */
    method CheckExit() returns (ok: bool, push: bool)
      requires Linked(g) && Balanced(g) && Witnessed(g, initial)
      requires forall p: seq<nat> :: IsPath(g, p) ==> Last(p) in initial
      ensures ok <==> forall p: seq<nat> :: IsPath(g, p) && Last(p) == |g.blocks| - 1 ==>
        0 <= Depth(g, p) + Net(g.blocks[Last(p)].ops) <= 1
      ensures push <==>
        exists p: seq<nat> :: IsPath(g, p) && Last(p) == |g.blocks| - 1 && Depth(g, p) + Net(g.blocks[Last(p)].ops) == 0
    {
      hide IsPath, Depth;
      ok, push := true, false;
      var last := |g.blocks| - 1;
      if last in initial {
        ghost var w: seq<nat> :| Brings(g, w, last, initial[last]);
        var depth := initial[last] + Net(g.blocks[last].ops);
        if depth == 0 {
          push := true;
          depth := depth + 1;
        }
        ok := depth == 1;
      }
    }
  }

  lemma IsBlock(g: Graph, m: Depths, maxDepth: int, b: nat)
    requires Linked(g) && Done(g, m, maxDepth, b)
    ensures b < |g.blocks| && b in m
  {
  }

  lemma Start(g: Graph)
    requires Linked(g)
    ensures Brings(g, [0], 0, 0)
  {
  }

  lemma NoneAttained(g: Graph)
    requires Linked(g)
    ensures Attained(g, 0)
  {
  }

  lemma OfBlock(g: Graph, b: nat)
    requires Linked(g) && b < |g.blocks|
    ensures LinkedBlock(g, b)
  {
  }

  /** When all blocks visited are done, so is every block that a path leads to. */
  lemma {:induction false} PathChecked(g: Graph, m: Depths, maxDepth: int, p: seq<nat>)
    requires Linked(g) && IsPath(g, p) && 0 in m && m[0] == 0
    requires forall c: nat :: c in m ==> Done(g, m, maxDepth, c)
    ensures Last(p) in m && m[Last(p)] == Depth(g, p) && Done(g, m, maxDepth, Last(p))
  {
    if |p| > 1 {
      ShorterPath(g, p, |p| - 2);
      assert Front(p) == p[..|p| - 1];
      PathChecked(g, m, maxDepth, Front(p));
      assert Edge(g, p[|p| - 2], p[|p| - 1]);
      assert Done(g, m, maxDepth, p[|p| - 2]);
    }
  }

  lemma AllRun(g: Graph, m: Depths, maxDepth: int)
    requires Linked(g) && 0 in m && m[0] == 0
    requires forall c: nat :: c in m ==> Done(g, m, maxDepth, c)
    ensures forall p: seq<nat> :: IsPath(g, p) ==> Last(p) in m && m[Last(p)] == Depth(g, p)
    ensures forall p: seq<nat> :: IsPath(g, p) ==> RunsSafely(Depth(g, p), g.blocks[Last(p)].ops, maxDepth)
  {
    forall p: seq<nat> | IsPath(g, p)
      ensures Last(p) in m && m[Last(p)] == Depth(g, p) && RunsSafely(Depth(g, p), g.blocks[Last(p)].ops, maxDepth)
    {
      PathChecked(g, m, maxDepth, p);
      SafeIffBounds(Depth(g, p), g.blocks[Last(p)].ops, maxDepth);
    }
  }

  lemma AllBalanced(g: Graph, m: Depths, maxDepth: int)
    requires Linked(g) && 0 in m && m[0] == 0 && CatchesEntered(g)
    requires forall c: nat :: c in m ==> Done(g, m, maxDepth, c)
    ensures Balanced(g)
    ensures forall p: seq<nat> :: IsPath(g, p) ==> Depth(g, p) + Highest(g.blocks[Last(p)].ops) <= maxDepth
  {
    forall p: seq<nat> | IsPath(g, p)
      ensures Last(p) in m && m[Last(p)] == Depth(g, p) && Done(g, m, maxDepth, Last(p))
    {
      PathChecked(g, m, maxDepth, p);
    }
    forall p: seq<nat>, i | IsPath(g, p) && 0 <= i < |p| - 1 && g.blocks[Last(p)].enclosingCatch == Some(p[i])
      ensures KeepsCatch(g, p, i)
    {
      ShorterPath(g, p, i);
      PathChecked(g, m, maxDepth, p[..i + 1]);
      assert Last(p[..i + 1]) == p[i];
      assert Done(g, m, maxDepth, Last(p));
    }
  }

  lemma Witness(g: Graph, m: Depths, p: seq<nat>, b: nat, depth: int)
    requires Linked(g) && Witnessed(g, m) && Brings(g, p, b, depth) && b !in m
    ensures Witnessed(g, m[b := depth]) && b < |g.blocks|
  {
    assert b == Last(p) && p[|p| - 1] < |g.blocks|;
    var n := m[b := depth];
    forall c | c in n ensures c < |g.blocks| && exists q: seq<nat> :: Brings(g, q, c, n[c]) {
      if c == b {
        assert Brings(g, p, b, depth);
      }
    }
  }
}
