/** The NFA that the compiler builds and rewrites: states and labelled arcs. */
module NfaGraph {

  /** The arc types that the parser makes: colours, do-nothing arcs, and zero-width constraints. */
  datatype ArcType = PLAIN | EMPTY | BOL | EOL | AHEAD | BEHIND | LACON

  datatype Arc = Arc(ty: ArcType, co: nat, from: nat, to: nat)

  function Outs(A: set<Arc>, s: nat): set<Arc> {
    set a | a in A && a.from == s
  }

  function Ins(A: set<Arc>, s: nat): set<Arc> {
    set a | a in A && a.to == s
  }

  /** The arcs B, made to leave from s. */
  function LeaveFrom(B: set<Arc>, s: nat): set<Arc> {
    set a | a in B :: a.(from := s)
  }

  /** The arcs B, made to enter s. */
  function Enter(B: set<Arc>, s: nat): set<Arc> {
    set a | a in B :: a.(to := s)
  }

  /** What is left of a duplicate-free sequence after one element is cut out. */
  lemma RemovedAt(s: seq<nat>, i: nat)
    requires i < |s| && forall j, k :: 0 <= j < k < |s| ==> s[j] != s[k]
    ensures var r := s[..i] + s[i + 1..];
            && (forall j, k :: 0 <= j < k < |r| ==> r[j] != r[k])
            && (forall x :: x in r <==> x in s && x != s[i])
  {
    var r := s[..i] + s[i + 1..];
    forall x | x in s && x != s[i] ensures x in r {
      var j :| 0 <= j < |s| && s[j] == x;
      assert r[if j < i then j else j - 1] == x;
    }
  }

  // ---------------------------------------------------------------- the arcs at one side of a state

  /** The source of an inarc, the target of an outarc. */
  function Far(a: Arc, ins: bool): nat {
    if ins then a.from else a.to
  }

  /** The arcs at one side of s. */
  function Side(A: set<Arc>, s: nat, ins: bool): set<Arc> {
    if ins then Ins(A, s) else Outs(A, s)
  }

  /** The arc, hung up at s instead. */
  function Hang(a: Arc, s: nat, ins: bool): Arc {
    if ins then a.(to := s) else a.(from := s)
  }

  function HangAll(B: set<Arc>, s: nat, ins: bool): set<Arc> {
    if ins then Enter(B, s) else LeaveFrom(B, s)
  }

  function First(s: seq<Arc>, i: nat): (r: set<Arc>)
    requires i <= |s|
    ensures forall a :: a in r <==> a in s[..i]
  {
    set k | 0 <= k < i :: s[k]
  }

  lemma FirstAll(s: seq<Arc>, S: set<Arc>)
    requires forall a :: a in s <==> a in S
    ensures First(s, |s|) == S
  {
    assert s[..|s|] == s;
  }

  /** The arcs of S in some order. */
  method ListArcs(S: set<Arc>) returns (s: array<Arc>)
    ensures fresh(s) && forall a :: a in s[..] <==> a in S
  {
    var todo := S;
    var list: seq<Arc> := [];
    while todo != {}
      invariant todo <= S && forall a :: a in list <==> a in S - todo
      decreases todo
    {
      var a :| a in todo;
      list, todo := list + [a], todo - {a};
    }
    s := new Arc[|list|](i requires 0 <= i < |list| => list[i]);
    assert s[..] == list;
  }

  class Nfa {
    const pre: nat
    const post: nat
    /** The state chain, in order. */
    var states: seq<nat>
    /** The number the next new state gets. */
    var nstates: nat
    var arcs: set<Arc>

    ghost predicate Valid()
      reads this
    {
      && pre != post && pre in states && post in states
      && (forall i, j :: 0 <= i < j < |states| ==> states[i] != states[j])
      && (forall s :: s in states ==> s < nstates)
      && (forall a :: a in arcs ==> a.from in states && a.to in states)
    }

    /** An NFA whose states are the numbers below count. */
    constructor (count: nat, pre: nat, post: nat, arcs: set<Arc>)
      requires pre < count && post < count && pre != post
      requires forall a :: a in arcs ==> a.from < count && a.to < count
      ensures Valid() && this.pre == pre && this.post == post && this.arcs == arcs
      ensures nstates == |states| == count && forall s: nat :: s < count ==> states[s] == s
    {
      this.pre, this.post, this.arcs, nstates := pre, post, arcs, count;
      states := seq(count, (s: nat) => s);
      new;
      forall s: nat | s < count ensures s in states {
        assert states[s] == s;
      }
    }

    /** A flagged state is never deleted. */
    predicate Flag(s: nat) {
      s == pre || s == post
    }

    method NewState() returns (s: nat)
      requires Valid()
      modifies this`states, this`nstates
      ensures Valid() && s == old(nstates) && nstates == old(nstates) + 1 && states == old(states) + [s]
      ensures s !in old(states)
      ensures forall a :: a in arcs ==> a.from != s && a.to != s
    {
      s := nstates;
      assert forall i :: 0 <= i < |states| ==> states[i] in states;
      nstates := nstates + 1;
      states := states + [s];
    }

    /** Adds an arc unless an equal one is there. */
    method NewArc(ty: ArcType, co: nat, from: nat, to: nat)
      requires Valid() && from in states && to in states
      modifies this`arcs
      ensures Valid() && arcs == old(arcs) + {Arc(ty, co, from, to)}
    {
      if Arc(ty, co, from, to) !in arcs {
        arcs := arcs + {Arc(ty, co, from, to)};
      }
    }

    method FreeArc(a: Arc)
      requires Valid() && a in arcs
      modifies this`arcs
      ensures Valid() && arcs == old(arcs) - {a}
    {
      arcs := arcs - {a};
    }

    /** Deletes a state together with its arcs. */
    method DropState(s: nat)
      requires Valid() && s in states && !Flag(s)
      modifies this`states, this`arcs
      ensures Valid() && arcs == old(arcs) - Ins(old(arcs), s) - Outs(old(arcs), s)
      ensures forall x :: x in states <==> x in old(states) && x != s
      ensures exists i :: 0 <= i < |old(states)| && old(states)[i] == s && states == old(states)[..i] + old(states)[i + 1..]
    {
      arcs := arcs - Ins(arcs, s) - Outs(arcs, s);
      var i :| 0 <= i < |states| && states[i] == s;
      RemovedAt(states, i);
      states := states[..i] + states[i + 1..];
    }

    // How the next operations find what is there already, and what they do to the chains that the arcs are on, is
    // in ArcMoves.

    method CopyOuts(oldState: nat, newState: nat)
      requires Valid() && newState in states && oldState != newState
      modifies this`arcs
      ensures Valid() && arcs == old(arcs) + LeaveFrom(Outs(old(arcs), oldState), newState)
    {
      arcs := arcs + LeaveFrom(Outs(arcs, oldState), newState);
    }

    method CopyIns(oldState: nat, newState: nat)
      requires Valid() && newState in states && oldState != newState
      modifies this`arcs
      ensures Valid() && arcs == old(arcs) + Enter(Ins(old(arcs), oldState), newState)
    {
      arcs := arcs + Enter(Ins(arcs, oldState), newState);
    }

    method MoveIns(oldState: nat, newState: nat)
      requires Valid() && newState in states && oldState != newState
      modifies this`arcs
      ensures Valid() && arcs == old(arcs) - Ins(old(arcs), oldState) + Enter(Ins(old(arcs), oldState), newState)
    {
      arcs := arcs - Ins(arcs, oldState) + Enter(Ins(arcs, oldState), newState);
    }

    method MoveOuts(oldState: nat, newState: nat)
      requires Valid() && newState in states && oldState != newState
      modifies this`arcs
      ensures Valid() && arcs == old(arcs) - Outs(old(arcs), oldState) + LeaveFrom(Outs(old(arcs), oldState), newState)
    {
      arcs := arcs - Outs(arcs, oldState) + LeaveFrom(Outs(arcs, oldState), newState);
    }

    /** Merges the arcs of the array, which may repeat each other, into the inarcs of s. */
    method MergeIns(s: nat, arcarray: array<Arc>)
      requires Valid() && s in states && forall a :: a in arcarray[..] ==> a.from in states
      modifies this`arcs
      ensures Valid() && arcs == old(arcs) + Enter(First(arcarray[..], arcarray.Length), s)
    {
      arcs := arcs + Enter(set i | 0 <= i < arcarray.Length :: arcarray[i], s);
      assert First(arcarray[..], arcarray.Length) == set i | 0 <= i < arcarray.Length :: arcarray[i];
    }
  }

  // ---------------------------------------------------------------- looking backward

  function MirrorType(ty: ArcType): ArcType {
    match ty
    case BOL => EOL
    case EOL => BOL
    case AHEAD => BEHIND
    case BEHIND => AHEAD
    case _ => ty
  }

  /** The arc as it is seen by someone who reads the other way. */
  function Mirror(a: Arc): (m: Arc)
  {
    Arc(MirrorType(a.ty), a.co, a.to, a.from)
  }

  function Mirrored(A: set<Arc>): (M: set<Arc>)
    ensures forall a {:trigger a in M} :: a in M <==> Mirror(a) in A
  {
    set a | a in A :: Mirror(a)
  }

  lemma MirroredPlus(A: set<Arc>, B: set<Arc>)
    ensures Mirrored(A + B) == Mirrored(A) + Mirrored(B) && Mirrored(A - B) == Mirrored(A) - Mirrored(B)
  {
  }

  lemma MirroredTwice(A: set<Arc>)
    ensures Mirrored(Mirrored(A)) == A
  {
    forall a ensures a in Mirrored(Mirrored(A)) <==> a in A {
      assert Mirror(Mirror(a)) == a;
    }
  }

  lemma MirroredOne(a: Arc)
    ensures Mirrored({a}) == {Mirror(a)}
  {
  }

  /** The arcs of n as they are seen in one direction or the other. */
  function Seen(n: Nfa, rev: bool): set<Arc>
    reads n
  {
    if rev then Mirrored(n.arcs) else n.arcs
  }

  lemma MirroredEnds(A: set<Arc>, s: nat)
    ensures Ins(Mirrored(A), s) == Mirrored(Outs(A, s)) && Outs(Mirrored(A), s) == Mirrored(Ins(A, s))
  {
  }

  lemma MirroredMoves(B: set<Arc>, s: nat)
    ensures Enter(Mirrored(B), s) == Mirrored(LeaveFrom(B, s))
  {
    forall a ensures a in Enter(Mirrored(B), s) <==> a in Mirrored(LeaveFrom(B, s)) {
      if a in Enter(Mirrored(B), s) {
        var b :| b in Mirrored(B) && a == b.(to := s);
        assert Mirror(a) == Mirror(b).(from := s);
      }
      if Mirror(a) in LeaveFrom(B, s) {
        var b :| b in B && Mirror(a) == b.(from := s);
        assert Mirror(Mirror(b)) == b;
        assert a == Mirror(b).(to := s);
      }
    }
  }

  lemma SeenValid(n: Nfa, rev: bool)
    requires n.Valid()
    ensures forall a :: a in Seen(n, rev) ==> a.from in n.states && a.to in n.states
  {
  }

  method NewArcSeen(n: Nfa, rev: bool, a: Arc)
    requires n.Valid() && a.from in n.states && a.to in n.states
    modifies n`arcs
    ensures n.Valid() && Seen(n, rev) == old(Seen(n, rev)) + {a}
  {
    if rev {
      var m := Mirror(a);
      MirroredPlus(n.arcs, {m});
      MirroredOne(m);
      n.NewArc(m.ty, m.co, m.from, m.to);
    } else {
      n.NewArc(a.ty, a.co, a.from, a.to);
    }
  }

  method FreeArcSeen(n: Nfa, rev: bool, a: Arc)
    requires n.Valid() && a in Seen(n, rev)
    modifies n`arcs
    ensures n.Valid() && Seen(n, rev) == old(Seen(n, rev)) - {a}
  {
    if rev {
      MirroredPlus(n.arcs, {Mirror(a)});
      MirroredOne(Mirror(a));
    }
    n.FreeArc(if rev then Mirror(a) else a);
  }

  /** copyins, or copyouts for someone who reads the other way. */
  method CopyInsSeen(n: Nfa, rev: bool, oldState: nat, newState: nat)
    requires n.Valid() && newState in n.states && oldState != newState
    modifies n`arcs
    ensures n.Valid() && Seen(n, rev) == old(Seen(n, rev)) + Enter(Ins(old(Seen(n, rev)), oldState), newState)
  {
    if rev {
      CopySeen(n.arcs, oldState, newState);
      n.CopyOuts(oldState, newState);
    } else {
      n.CopyIns(oldState, newState);
    }
  }

  lemma CopySeen(A: set<Arc>, oldState: nat, newState: nat)
    ensures Mirrored(A + LeaveFrom(Outs(A, oldState), newState)) == Mirrored(A) + Enter(Ins(Mirrored(A), oldState), newState)
    ensures Mirrored(A - Outs(A, oldState) + LeaveFrom(Outs(A, oldState), newState))
         == Mirrored(A) - Ins(Mirrored(A), oldState) + Enter(Ins(Mirrored(A), oldState), newState)
  {
    hide Mirrored, Mirror, Ins, Outs, Enter, LeaveFrom;
    MirroredEnds(A, oldState);
    MirroredMoves(Outs(A, oldState), newState);
    MirroredPlus(A, LeaveFrom(Outs(A, oldState), newState));
    MirroredPlus(A, Outs(A, oldState));
    MirroredPlus(A - Outs(A, oldState), LeaveFrom(Outs(A, oldState), newState));
  }

  /** moveins, or moveouts for someone who reads the other way. */
  method MoveInsSeen(n: Nfa, rev: bool, oldState: nat, newState: nat)
    requires n.Valid() && newState in n.states && oldState != newState
    modifies n`arcs
    ensures n.Valid()
    ensures Seen(n, rev) == old(Seen(n, rev)) - Ins(old(Seen(n, rev)), oldState) + Enter(Ins(old(Seen(n, rev)), oldState), newState)
  {
    if rev {
      CopySeen(n.arcs, oldState, newState);
      n.MoveOuts(oldState, newState);
    } else {
      n.MoveIns(oldState, newState);
    }
  }

  method DropStateSeen(n: Nfa, rev: bool, s: nat)
    requires n.Valid() && s in n.states && !n.Flag(s)
    modifies n`states, n`arcs
    ensures n.Valid() && Seen(n, rev) == old(Seen(n, rev)) - Ins(old(Seen(n, rev)), s) - Outs(old(Seen(n, rev)), s)
    ensures exists i :: 0 <= i < |old(n.states)| && old(n.states)[i] == s && n.states == old(n.states)[..i] + old(n.states)[i + 1..]
  {
    DropMirrored(n.arcs, s);
    n.DropState(s);
  }

  lemma DropMirrored(A: set<Arc>, s: nat)
    ensures Mirrored(A - Ins(A, s) - Outs(A, s)) == Mirrored(A) - Ins(Mirrored(A), s) - Outs(Mirrored(A), s)
  {
    hide *;
    MirroredEnds(A, s);
    MirroredPlus(A, Ins(A, s));
    MirroredPlus(A - Ins(A, s), Outs(A, s));
    assert Mirrored(A) - Mirrored(Ins(A, s)) - Mirrored(Outs(A, s)) == Mirrored(A) - Mirrored(Outs(A, s)) - Mirrored(Ins(A, s));
  }
}
