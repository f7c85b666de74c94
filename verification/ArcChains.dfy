/** The arcs of an NFA as they are stored: every arc is on the in-chain of its target and on the out-chain of its source. */
module ArcChains {
  import opened NfaGraph
  import opened ArcLists

  /** The chains on one side of all states: links, first arcs, how many there are, and which. */
  datatype Shape = Shape(link: map<nat, Link>, head: map<nat, nat>, count: map<nat, nat>, chain: map<nat, seq<nat>>)
  {
    ghost predicate Has(s: nat) {
      s in head && s in count && s in chain
    }
  }

  /** The state's chain leads through exactly the arcs that hang at the state, and they are counted. */
  ghost predicate StateOk(h: Shape, w: map<nat, Arc>, ins: bool, s: nat) {
    && h.Has(s) && Chained(h.link, h.head[s], h.chain[s]) && h.count[s] == |h.chain[s]|
    && forall x :: x in h.chain[s] <==> x in w && Far(w[x], !ins) == s
  }

  ghost predicate SideOk(h: Shape, w: map<nat, Arc>, ins: bool, S: set<nat>) {
    forall s :: s in S ==> StateOk(h, w, ins, s)
  }

  /** No two arcs are equal. */
  ghost predicate NoTwins(w: map<nat, Arc>) {
    forall x, y :: x in w && y in w && w[x] == w[y] ==> x == y
  }

  ghost function ArcsOf(w: map<nat, Arc>): set<Arc> {
    set x | x in w :: w[x]
  }

  lemma SideKeeps(h: Shape, w: map<nat, Arc>, ins: bool, S: set<nat>, s: nat)
    requires SideOk(h, w, ins, S) && s in S
    ensures h.Has(s) && Chained(h.link, h.head[s], h.chain[s]) && h.count[s] == |h.chain[s]|
    ensures Distinct(h.chain[s]) && NULL !in h.chain[s] && h.head[s] == At(h.chain[s], 0)
    ensures forall x :: x in h.chain[s] <==> x in w && Far(w[x], !ins) == s
  {
    hide Chained;
    assert StateOk(h, w, ins, s);
    ChainFacts(h.link, h.head[s], h.chain[s]);
  }

  // ---------------------------------------------------------------- hooking up and taking out

  /** An arc at the beginning of a chain. */
  ghost function Added(h: Shape, s: nat, x: nat): Shape
    requires h.Has(s)
  {
    Shape(Prepended(h.link, h.head[s], x), h.head[s := x], h.count[s := h.count[s] + 1], h.chain[s := [x] + h.chain[s]])
  }

  lemma AddOk(h: Shape, w: map<nat, Arc>, ins: bool, S: set<nat>, x: nat, a: Arc)
    requires SideOk(h, w, ins, S) && x != NULL && x !in w && Far(a, !ins) in S
    ensures h.Has(Far(a, !ins)) && SideOk(Added(h, Far(a, !ins), x), w[x := a], ins, S)
  {
    hide Chained, Prepended, Far;
    var s := Far(a, !ins);
    SideKeeps(h, w, ins, S, s);
    var r := Added(h, s, x);
    PrependChain(h.link, h.head[s], h.chain[s], x);
    ChainFacts(h.link, h.head[s], h.chain[s]);
    forall t | t in S ensures StateOk(r, w[x := a], ins, t) {
      SideKeeps(h, w, ins, S, t);
      if t != s {
        PrependElsewhere(h.link, h.head[s], x, h.head[t], h.chain[t]);
      }
    }
  }

  /** Arc number i taken out of a chain. */
  ghost function Taken(h: Shape, s: nat, i: nat): Shape
    requires h.Has(s) && i < |h.chain[s]| && h.chain[s][i] in h.link && h.count[s] > 0
  {
    var x := h.chain[s][i];
    Shape(Unlinked(h.link, x), if h.link[x].prev == NULL then h.head[s := h.link[x].next] else h.head,
          h.count[s := h.count[s] - 1], h.chain[s := Removed(h.chain[s], i)])
  }

  lemma TakeOk(h: Shape, w: map<nat, Arc>, ins: bool, S: set<nat>, s: nat, i: nat)
    requires SideOk(h, w, ins, S) && s in S && h.Has(s) && i < |h.chain[s]|
    ensures h.chain[s][i] in h.link && h.count[s] > 0 && h.chain[s][i] in w
    ensures SideOk(Taken(h, s, i), w - {h.chain[s][i]}, ins, S)
  {
    hide Chained, Unlinked, Removed, Far;
    SideKeeps(h, w, ins, S, s);
    var c := h.chain[s];
    assert c[i] in c;
    UnlinkChain(h.link, h.head[s], c, i);
    RemovedMembers(c, i);
    var r := Taken(h, s, i);
    forall t | t in S ensures StateOk(r, w - {c[i]}, ins, t) {
      SideKeeps(h, w, ins, S, t);
      if t != s {
        UnlinkElsewhere(h.link, h.head[s], c, i, h.head[t], h.chain[t]);
      }
    }
  }

  /** A chain put in another order. */
  ghost function Resorted(h: Shape, s: nat, c: seq<nat>): Shape
    requires h.Has(s)
  {
    h.(link := Relinked(h.link, c, |c|), head := h.head[s := At(c, 0)], chain := h.chain[s := c])
  }

  lemma ResortOk(h: Shape, w: map<nat, Arc>, ins: bool, S: set<nat>, s: nat, c: seq<nat>)
    requires SideOk(h, w, ins, S) && s in S && h.Has(s)
    requires Distinct(c) && |c| == |h.chain[s]| && forall x :: x in c <==> x in h.chain[s]
    ensures SideOk(Resorted(h, s, c), w, ins, S)
  {
    hide Chained, Relinked, Far;
    SideKeeps(h, w, ins, S, s);
    RelinkChain(h.link, c);
    var r := Resorted(h, s, c);
    forall t | t in S ensures StateOk(r, w, ins, t) {
      SideKeeps(h, w, ins, S, t);
      if t != s {
        RelinkElsewhere(h.link, c, h.head[t], h.chain[t]);
      }
    }
  }

  /** Where an arc is in the chain it is on. */
  lemma PlaceOf(h: Shape, w: map<nat, Arc>, ins: bool, S: set<nat>, x: nat) returns (i: nat)
    requires SideOk(h, w, ins, S) && x in w && Far(w[x], !ins) in S
    ensures h.Has(Far(w[x], !ins)) && i < |h.chain[Far(w[x], !ins)]| && h.chain[Far(w[x], !ins)][i] == x
  {
    hide Chained;
    SideKeeps(h, w, ins, S, Far(w[x], !ins));
    i :| 0 <= i < |h.chain[Far(w[x], !ins)]| && h.chain[Far(w[x], !ins)][i] == x;
  }

  /** Only the other end of x has changed, so the chains on this side hold what they held. */
  lemma SameEnd(h: Shape, w: map<nat, Arc>, ins: bool, S: set<nat>, x: nat, b: Arc)
    requires SideOk(h, w, ins, S) && x in w && Far(b, !ins) == Far(w[x], !ins)
    ensures SideOk(h, w[x := b], ins, S)
  {
    hide Chained;
    forall t | t in S ensures StateOk(h, w[x := b], ins, t) {
      assert StateOk(h, w, ins, t);
    }
  }

  /** The chain without the arc x, if it was there. */
  ghost predicate Shortened(c: seq<nat>, x: nat, r: seq<nat>) {
    if x in c then exists i :: 0 <= i < |c| && c[i] == x && r == Removed(c, i) else r == c
  }

  /** The chain of x has lost it, and it was on no other on this side. */
  lemma AllShortened(h: Shape, w: map<nat, Arc>, ins: bool, S: set<nat>, i: nat, x: nat)
    requires SideOk(h, w, ins, S) && x in w
    requires var s := Far(w[x], !ins); h.Has(s) && i < |h.chain[s]| && h.chain[s][i] == x
    ensures var s := Far(w[x], !ins);
            forall q :: q in S ==> q in h.chain && Shortened(h.chain[q], x, h.chain[s := Removed(h.chain[s], i)][q])
  {
    hide Removed, Chained, Far;
    var s := Far(w[x], !ins);
    forall q | q in S ensures q in h.chain && Shortened(h.chain[q], x, h.chain[s := Removed(h.chain[s], i)][q]) {
      SideKeeps(h, w, ins, S, q);
    }
  }

  lemma TwinsAdded(w: map<nat, Arc>, x: nat, a: Arc)
    requires NoTwins(w) && a !in ArcsOf(w)
    ensures NoTwins(w[x := a])
  {
    assert forall y :: y in w ==> w[y] in ArcsOf(w);
  }

  // ---------------------------------------------------------------- the store

  class ArcStore {
    const states: set<nat>
    /** The arcs in use. */
    var what: map<nat, Arc>
    /** In-chains: links, first arcs, how many there are. */
    var inLink: map<nat, Link>
    var inHead: map<nat, nat>
    var inCount: map<nat, nat>
    /** Out-chains. */
    var outLink: map<nat, Link>
    var outHead: map<nat, nat>
    var outCount: map<nat, nat>
    /** Arcs from here on have never been used. */
    var unused: nat
    ghost var inChain: map<nat, seq<nat>>
    ghost var outChain: map<nat, seq<nat>>

    ghost function Side(ins: bool): Shape
      reads this
    {
      if ins then Shape(inLink, inHead, inCount, inChain) else Shape(outLink, outHead, outCount, outChain)
    }

    ghost function Arcs(): set<Arc>
      reads this
    {
      ArcsOf(what)
    }

    ghost predicate Valid()
      reads this
    {
      && SideOk(Side(true), what, true, states) && SideOk(Side(false), what, false, states)
      && (forall x :: x in what ==> NULL < x < unused && what[x].from in states && what[x].to in states)
      && NoTwins(what) && unused > NULL
    }

    constructor (states: set<nat>)
      ensures Valid() && this.states == states && Arcs() == {}
    {
      this.states := states;
      what, inLink, outLink, unused := map[], map[], map[], 1;
      inHead, outHead := map s | s in states :: NULL, map s | s in states :: NULL;
      inCount, outCount := map s | s in states :: 0, map s | s in states :: 0;
      inChain, outChain := map s | s in states :: [], map s | s in states :: [];
    }

    function Link(ins: bool): map<nat, Link>
      reads this
    {
      if ins then inLink else outLink
    }

    function Head(ins: bool): map<nat, nat>
      reads this
    {
      if ins then inHead else outHead
    }

    function Count(ins: bool): map<nat, nat>
      reads this
    {
      if ins then inCount else outCount
    }

    ghost function Chain(ins: bool): map<nat, seq<nat>>
      reads this
    {
      if ins then inChain else outChain
    }

    /** Puts an arc at the beginning of a chain. */
    method Hook(ins: bool, s: nat, x: nat)
      requires Side(ins).Has(s)
      modifies this`inLink, this`inHead, this`inCount, this`inChain, this`outLink, this`outHead, this`outCount, this`outChain
      ensures Side(ins) == Added(old(Side(ins)), s, x) && Side(!ins) == old(Side(!ins))
    {
      if ins {
        inLink := Prepended(inLink, inHead[s], x);
        inHead, inCount, inChain := inHead[s := x], inCount[s := inCount[s] + 1], inChain[s := [x] + inChain[s]];
      } else {
        outLink := Prepended(outLink, outHead[s], x);
        outHead, outCount, outChain := outHead[s := x], outCount[s := outCount[s] + 1], outChain[s := [x] + outChain[s]];
      }
    }

    /** Takes an arc out of a chain. */
    method Unhook(ins: bool, s: nat, x: nat, ghost i: nat)
      requires Side(ins).Has(s) && i < |Chain(ins)[s]| && Chain(ins)[s][i] == x && x in Link(ins) && Count(ins)[s] > 0
      modifies this`inLink, this`inHead, this`inCount, this`inChain, this`outLink, this`outHead, this`outCount, this`outChain
      ensures Side(ins) == Taken(old(Side(ins)), s, i) && Side(!ins) == old(Side(!ins))
    {
      hide Unlinked, Removed;
      if ins {
        var l := inLink[x];
        inLink := Unlinked(inLink, x);
        if l.prev == NULL {
          inHead := inHead[s := l.next];
        }
        inCount, inChain := inCount[s := inCount[s] - 1], inChain[s := Removed(inChain[s], i)];
      } else {
        var l := outLink[x];
        outLink := Unlinked(outLink, x);
        if l.prev == NULL {
          outHead := outHead[s := l.next];
        }
        outCount, outChain := outCount[s := outCount[s] - 1], outChain[s := Removed(outChain[s], i)];
      }
    }

    /** Makes an arc, which must not be there already. */
    method CreateArc(a: Arc) returns (x: nat)
      requires Valid() && a.from in states && a.to in states && a !in Arcs()
      modifies this`what, this`unused,
               this`inLink, this`inHead, this`inCount, this`inChain, this`outLink, this`outHead, this`outCount, this`outChain
      ensures Valid() && x !in old(what) && what == old(what)[x := a]
      ensures a.to in old(inChain) && inChain == old(inChain)[a.to := [x] + old(inChain)[a.to]]
      ensures a.from in old(outChain) && outChain == old(outChain)[a.from := [x] + old(outChain)[a.from]]
    {
      hide Prepended, SideOk;
      x := unused;
      unused := unused + 1;
      AddOk(Side(true), what, true, states, x, a);
      Hook(true, a.to, x);
      AddOk(Side(false), what, false, states, x, a);
      Hook(false, a.from, x);
      TwinsAdded(what, x, a);
      what := what[x := a];
    }

    /** Frees an arc. */
    method FreeArc(x: nat)
      requires Valid() && x in what
      modifies this`what,
               this`inLink, this`inHead, this`inCount, this`inChain, this`outLink, this`outHead, this`outCount, this`outChain
      ensures Valid() && what == old(what) - {x}
      ensures forall ins, s :: s in states ==> s in Chain(ins) && s in old(Chain(ins)) && Shortened(old(Chain(ins))[s], x, Chain(ins)[s])
    {
      hide Unlinked, Removed, SideOk, Shortened;
      var a := what[x];
      ghost var i := PlaceOf(Side(false), what, false, states, x);
      TakeOk(Side(false), what, false, states, a.from, i);
      AllShortened(Side(false), what, false, states, i, x);
      Unhook(false, a.from, x, i);
      ghost var j := PlaceOf(Side(true), what, true, states, x);
      TakeOk(Side(true), what, true, states, a.to, j);
      AllShortened(Side(true), what, true, states, j, x);
      Unhook(true, a.to, x, j);
      what := what - {x};
    }

    /** Makes an arc lead to another state, where no equal one leads. */
    method ChangeArcTarget(x: nat, newTo: nat)
      requires Valid() && x in what && newTo in states && what[x].to != newTo && what[x].(to := newTo) !in Arcs()
      modifies this`what,
               this`inLink, this`inHead, this`inCount, this`inChain, this`outLink, this`outHead, this`outCount, this`outChain
      ensures Valid() && x in old(what) && what == old(what)[x := old(what)[x].(to := newTo)]
      ensures outChain == old(outChain)
      ensures forall s :: s in states ==> s in inChain && s in old(inChain)
      ensures inChain[newTo] == [x] + old(inChain)[newTo]
      ensures forall s :: s in states && s != newTo ==> Shortened(old(inChain)[s], x, inChain[s])
    {
      hide Unlinked, Removed, SideOk, Shortened, Prepended;
      var a := what[x];
      var b := a.(to := newTo);
      ghost var i := PlaceOf(Side(true), what, true, states, x);
      TakeOk(Side(true), what, true, states, a.to, i);
      AllShortened(Side(true), what, true, states, i, x);
      SideKeeps(Side(true), what, true, states, newTo);
      Unhook(true, a.to, x, i);
      AddOk(Side(true), what - {x}, true, states, x, b);
      SideKeeps(Side(true), what - {x}, true, states, newTo);
      Hook(true, newTo, x);
      SameEnd(Side(false), what, false, states, x, b);
      TwinsAdded(what, x, b);
      assert (what - {x})[x := b] == what[x := b];
      what := what[x := b];
    }
  }
}
