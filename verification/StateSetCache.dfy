/** The entries of the lazy DFA's cache and the in-arc chains that run through
    them: what a chain is, and how adding and dropping arcs changes it. */
module StateSetCache {
  import opened CompactNfa

  /** The null pointer, for both cache entries and string positions. */
  const NIL := -1

  /** A pointer to an out-arc: entry ss, colour co. */
  datatype Arcp = Arcp(ss: int, co: nat)

  /** A cache entry. The four flags are the bits of the flag word. */
  datatype SSet = SSet(states: set<nat>, starter: bool, poststate: bool, locked: bool, noprogress: bool,
                       ins: Arcp, lastseen: int, outs: seq<int>, inchain: seq<Arcp>)

  // ---------------------------------------------------------------- in-arc chains

  ghost predicate Shaped(c: seq<SSet>, ncolors: nat) {
    forall i :: 0 <= i < |c| ==> |c[i].outs| == ncolors && |c[i].inchain| == ncolors
  }

  /** a is an out-arc that leads to entry p. */
  ghost predicate LeadsTo(c: seq<SSet>, ncolors: nat, a: Arcp, p: int)
    requires Shaped(c, ncolors)
  {
    0 <= a.ss < |c| && a.co < ncolors && c[a.ss].outs[a.co] == p
  }

  ghost predicate Distinct<T>(s: seq<T>) {
    forall i, j :: 0 <= i < j < |s| ==> s[i] != s[j]
  }

  /** Starting from ins and following inchain links visits exactly the sequence ch. */
  ghost predicate Linked(c: seq<SSet>, ncolors: nat, p: nat, ch: seq<Arcp>)
    requires Shaped(c, ncolors) && p < |c|
  {
    && (if ch == [] then c[p].ins.ss == NIL else c[p].ins == ch[0])
    && (forall k :: 0 <= k < |ch| ==> LeadsTo(c, ncolors, ch[k], p))
    && (forall k :: 0 <= k < |ch| - 1 ==> c[ch[k].ss].inchain[ch[k].co] == ch[k + 1])
    && (ch != [] ==> c[ch[|ch| - 1].ss].inchain[ch[|ch| - 1].co].ss == NIL)
  }

  /** The chain of p is ch, and it holds every arc into p exactly once. */
  ghost predicate ChainOk(c: seq<SSet>, ncolors: nat, p: nat, ch: seq<Arcp>)
    requires Shaped(c, ncolors) && p < |c|
  {
    && Linked(c, ncolors, p, ch) && Distinct(ch)
    && (forall i: int, co: nat :: LeadsTo(c, ncolors, Arcp(i, co), p) ==> Arcp(i, co) in ch)
  }

  ghost predicate ChainsOk(c: seq<SSet>, ncolors: nat, chains: seq<seq<Arcp>>) {
    && Shaped(c, ncolors) && |chains| == |c|
    && (forall p :: 0 <= p < |c| ==> ChainOk(c, ncolors, p, chains[p]))
    && (forall i, co :: 0 <= i < |c| && 0 <= co < ncolors ==> c[i].outs[co] == NIL || 0 <= c[i].outs[co] < |c|)
  }

  /** s differs from s0 at most in its arcs. */
  ghost predicate SameSet(s0: SSet, s: SSet) {
    s == s0.(ins := s.ins, outs := s.outs, inchain := s.inchain)
  }

  /** s has an out-arc only where s0 has one. */
  ghost predicate NoNewArcs(s0: SSet, s: SSet) {
    |s.outs| == |s0.outs| && forall co :: 0 <= co < |s.outs| && s0.outs[co] == NIL ==> s.outs[co] == NIL
  }

  ghost predicate SameSets(c0: seq<SSet>, c: seq<SSet>) {
    |c0| == |c| && forall i :: 0 <= i < |c| ==> SameSet(c0[i], c[i])
  }

  /** Every out-arc of c is as in c0, except that those in cut are gone. */
  ghost predicate OutsExcept(c0: seq<SSet>, c: seq<SSet>, ncolors: nat, cut: seq<Arcp>)
    requires Shaped(c0, ncolors) && Shaped(c, ncolors) && |c0| == |c|
  {
    forall i, co {:trigger c[i].outs[co]} :: 0 <= i < |c| && 0 <= co < ncolors ==>
                 c[i].outs[co] == if Arcp(i, co) in cut then NIL else c0[i].outs[co]
  }

  /** A chain none of whose own links changed, and that no new arc should be on, is still good. */
  lemma KeepChain(c0: seq<SSet>, c: seq<SSet>, ncolors: nat, q: nat, ch: seq<Arcp>)
    requires Shaped(c0, ncolors) && Shaped(c, ncolors) && |c| == |c0| && q < |c|
    requires ChainOk(c0, ncolors, q, ch) && c[q].ins == c0[q].ins
    requires forall a: Arcp :: LeadsTo(c, ncolors, a, q) <==> LeadsTo(c0, ncolors, a, q)
    requires forall a: Arcp :: LeadsTo(c0, ncolors, a, q) ==> c[a.ss].inchain[a.co] == c0[a.ss].inchain[a.co]
    ensures ChainOk(c, ncolors, q, ch)
  {
    assert forall k :: 0 <= k < |ch| ==> LeadsTo(c0, ncolors, ch[k], q);
  }

  /** The effect of recording arc (css, co) into p. */
  ghost predicate ArcAdded(c0: seq<SSet>, c: seq<SSet>, ncolors: nat, css: nat, co: nat, p: nat) {
    && Shaped(c0, ncolors) && Shaped(c, ncolors) && SameSets(c0, c)
    && css < |c0| && p < |c0| && co < ncolors && c0[css].outs[co] == NIL
    && (forall q :: 0 <= q < |c| ==> c[q].ins == if q == p then Arcp(css, co) else c0[q].ins)
    && (forall i, k {:trigger c[i].outs[k]} :: 0 <= i < |c| && 0 <= k < ncolors ==>
          c[i].outs[k] == if i == css && k == co then p else c0[i].outs[k])
    && (forall i, k {:trigger c[i].inchain[k]} :: 0 <= i < |c| && 0 <= k < ncolors ==>
          c[i].inchain[k] == if i == css && k == co then c0[p].ins else c0[i].inchain[k])
  }

  lemma ArcAddedByUpdate(c0: seq<SSet>, c: seq<SSet>, ncolors: nat, css: nat, co: nat, p: nat)
    requires Shaped(c0, ncolors)
    requires css < |c0| && p < |c0| && co < ncolors && c0[css].outs[co] == NIL
    requires var c1 := c0[css := c0[css].(outs := c0[css].outs[co := p],
                                          inchain := c0[css].inchain[co := c0[p].ins])];
             c == c1[p := c1[p].(ins := Arcp(css, co))]
    ensures ArcAdded(c0, c, ncolors, css, co, p)
  {
  }

  lemma PrependLinked(c0: seq<SSet>, c: seq<SSet>, ncolors: nat, ch: seq<Arcp>, css: nat, co: nat, p: nat)
    requires ArcAdded(c0, c, ncolors, css, co, p) && Linked(c0, ncolors, p, ch)
    ensures Linked(c, ncolors, p, [Arcp(css, co)] + ch) && Arcp(css, co) !in ch
  {
    var a := Arcp(css, co);
    var ch' := [a] + ch;
    forall k | 0 <= k < |ch| ensures LeadsTo(c, ncolors, ch[k], p) && ch[k] != a {
      assert LeadsTo(c0, ncolors, ch[k], p);
    }
    forall k | 0 <= k < |ch'| ensures LeadsTo(c, ncolors, ch'[k], p) {
      if k > 0 { assert ch'[k] == ch[k - 1]; }
    }
    forall k | 0 <= k < |ch'| - 1 ensures c[ch'[k].ss].inchain[ch'[k].co] == ch'[k + 1] {
      if k > 0 { assert ch'[k] == ch[k - 1] && ch'[k + 1] == ch[k]; }
    }
    if ch != [] {
      assert ch'[|ch'| - 1] == ch[|ch| - 1];
    }
  }

  lemma PrependToChain(c0: seq<SSet>, c: seq<SSet>, ncolors: nat, ch: seq<Arcp>, css: nat, co: nat, p: nat)
    requires ArcAdded(c0, c, ncolors, css, co, p) && ChainOk(c0, ncolors, p, ch)
    ensures ChainOk(c, ncolors, p, [Arcp(css, co)] + ch)
  {
    PrependLinked(c0, c, ncolors, ch, css, co, p);
    forall i: int, k: nat | LeadsTo(c, ncolors, Arcp(i, k), p) ensures Arcp(i, k) in [Arcp(css, co)] + ch {
      if !(i == css && k == co) { assert LeadsTo(c0, ncolors, Arcp(i, k), p); }
    }
  }

  /** Adding one arc at the head of a chain. */
  lemma LinkArc(c0: seq<SSet>, c: seq<SSet>, ncolors: nat, chains: seq<seq<Arcp>>, css: nat, co: nat, p: nat)
    requires ChainsOk(c0, ncolors, chains) && ArcAdded(c0, c, ncolors, css, co, p)
    ensures ChainsOk(c, ncolors, chains[p := [Arcp(css, co)] + chains[p]])
  {
    var chains' := chains[p := [Arcp(css, co)] + chains[p]];
    forall q | 0 <= q < |c| ensures ChainOk(c, ncolors, q, chains'[q]) {
      assert ChainOk(c0, ncolors, q, chains[q]);
      if q == p {
        PrependToChain(c0, c, ncolors, chains[p], css, co, p);
      } else {
        assert !LeadsTo(c0, ncolors, Arcp(css, co), q);
        KeepChain(c0, c, ncolors, q, chains[q]);
      }
    }
  }

  /** The effect of taking arc a, whose chain predecessor is prev (if any), off the chain of p. */
  ghost predicate ArcRemoved(c0: seq<SSet>, c: seq<SSet>, ncolors: nat, p: nat, a: Arcp, first: bool, prev: Arcp) {
    && Shaped(c0, ncolors) && Shaped(c, ncolors) && SameSets(c0, c)
    && p < |c0| && LeadsTo(c0, ncolors, a, p)
    && (forall q :: 0 <= q < |c| ==> c[q].ins == if q == p && first then c0[a.ss].inchain[a.co] else c0[q].ins)
    && (forall i, k {:trigger c[i].outs[k]} :: 0 <= i < |c| && 0 <= k < ncolors ==>
          c[i].outs[k] == if Arcp(i, k) == a then NIL else c0[i].outs[k])
    && (forall i, k {:trigger c[i].inchain[k]} :: 0 <= i < |c| && 0 <= k < ncolors && Arcp(i, k) != a ==>
          c[i].inchain[k] == if !first && Arcp(i, k) == prev then c0[a.ss].inchain[a.co] else c0[i].inchain[k])
  }

  lemma RemoveLinked(c0: seq<SSet>, c: seq<SSet>, ncolors: nat, ch: seq<Arcp>, p: nat, k: nat)
    requires k < |ch| && p < |c0| && Shaped(c0, ncolors) && Linked(c0, ncolors, p, ch) && Distinct(ch)
    requires ArcRemoved(c0, c, ncolors, p, ch[k], k == 0, if k == 0 then ch[k] else ch[k - 1])
    ensures Linked(c, ncolors, p, ch[..k] + ch[k + 1..])
  {
    var ch' := ch[..k] + ch[k + 1..];
    forall j | 0 <= j < |ch| && j != k ensures LeadsTo(c, ncolors, ch[j], p) && ch[j] != ch[k] {
      assert LeadsTo(c0, ncolors, ch[j], p);
    }
    forall j | 0 <= j < |ch'| ensures LeadsTo(c, ncolors, ch'[j], p) {
      assert ch'[j] == ch[if j < k then j else j + 1];
    }
    forall j | 0 <= j < |ch'| - 1 ensures c[ch'[j].ss].inchain[ch'[j].co] == ch'[j + 1] {
      if j < k - 1 {
        assert ch'[j] == ch[j] && ch'[j + 1] == ch[j + 1];
      } else if j == k - 1 {
        assert ch'[j] == ch[k - 1] && ch'[j + 1] == ch[k + 1];
      } else {
        assert ch'[j] == ch[j + 1] && ch'[j + 1] == ch[j + 2];
      }
    }
    RemoveLinkedEnds(c0, c, ncolors, ch, p, k);
  }

  lemma RemoveLinkedEnds(c0: seq<SSet>, c: seq<SSet>, ncolors: nat, ch: seq<Arcp>, p: nat, k: nat)
    requires k < |ch| && p < |c0| && Shaped(c0, ncolors) && Linked(c0, ncolors, p, ch) && Distinct(ch)
    requires ArcRemoved(c0, c, ncolors, p, ch[k], k == 0, if k == 0 then ch[k] else ch[k - 1])
    requires var ch' := ch[..k] + ch[k + 1..]; forall j :: 0 <= j < |ch'| ==> LeadsTo(c, ncolors, ch'[j], p)
    ensures var ch' := ch[..k] + ch[k + 1..];
            && (if ch' == [] then c[p].ins.ss == NIL else c[p].ins == ch'[0])
            && (ch' != [] ==> c[ch'[|ch'| - 1].ss].inchain[ch'[|ch'| - 1].co].ss == NIL)
  {
    var ch' := ch[..k] + ch[k + 1..];
    if ch' != [] {
      var l := |ch'| - 1;
      assert ch'[0] == if k == 0 then ch[1] else ch[0];
      assert ch'[l] == if k == |ch| - 1 then ch[k - 1] else ch[|ch| - 1];
    }
  }

  lemma RemoveFromChain(c0: seq<SSet>, c: seq<SSet>, ncolors: nat, ch: seq<Arcp>, p: nat, k: nat)
    requires k < |ch| && p < |c0| && Shaped(c0, ncolors) && ChainOk(c0, ncolors, p, ch)
    requires ArcRemoved(c0, c, ncolors, p, ch[k], k == 0, if k == 0 then ch[k] else ch[k - 1])
    ensures ChainOk(c, ncolors, p, ch[..k] + ch[k + 1..])
  {
    hide Linked;
    RemoveLinked(c0, c, ncolors, ch, p, k);
    forall i: int, co: nat | LeadsTo(c, ncolors, Arcp(i, co), p) ensures Arcp(i, co) in ch[..k] + ch[k + 1..] {
      assert LeadsTo(c0, ncolors, Arcp(i, co), p) && Arcp(i, co) != ch[k];
      StillOnChain(ch, k, Arcp(i, co));
    }
  }

  lemma StillOnChain(ch: seq<Arcp>, k: nat, a: Arcp)
    requires k < |ch| && a in ch && a != ch[k]
    ensures a in ch[..k] + ch[k + 1..]
  {
    var j :| 0 <= j < |ch| && ch[j] == a;
    assert (ch[..k] + ch[k + 1..])[if j < k then j else j - 1] == a;
  }

  /** Taking arc number k out of the chain of p. */
  lemma UnlinkArc(c0: seq<SSet>, c: seq<SSet>, ncolors: nat, chains: seq<seq<Arcp>>, p: nat, k: nat)
    requires ChainsOk(c0, ncolors, chains) && p < |c0| && k < |chains[p]|
    requires ArcRemoved(c0, c, ncolors, p, chains[p][k], k == 0, if k == 0 then chains[p][k] else chains[p][k - 1])
    ensures ChainsOk(c, ncolors, chains[p := chains[p][..k] + chains[p][k + 1..]])
  {
    var chains' := chains[p := chains[p][..k] + chains[p][k + 1..]];
    assert ChainOk(c0, ncolors, p, chains[p]);
    assert k > 0 ==> LeadsTo(c0, ncolors, chains[p][k - 1], p);
    forall q | 0 <= q < |c| ensures ChainOk(c, ncolors, q, chains'[q]) {
      assert ChainOk(c0, ncolors, q, chains[q]);
      if q == p {
        RemoveFromChain(c0, c, ncolors, chains[p], p, k);
      } else {
        KeepChain(c0, c, ncolors, q, chains[q]);
      }
    }
  }

  /** The arcs in cut are gone, links off them are kept. */
  ghost predicate Cleared(c0: seq<SSet>, c: seq<SSet>, ncolors: nat, cut: seq<Arcp>) {
    && Shaped(c0, ncolors) && Shaped(c, ncolors) && SameSets(c0, c)
    && (forall q :: 0 <= q < |c| ==> c[q].ins == c0[q].ins)
    && OutsExcept(c0, c, ncolors, cut)
    && (forall i, k {:trigger c[i].inchain[k]} :: 0 <= i < |c| && 0 <= k < ncolors && Arcp(i, k) !in cut ==>
          c[i].inchain[k] == c0[i].inchain[k])
  }

  /** The entry after its out-arc co was cleared. */
  function WithoutArc(s: SSet, co: nat): SSet
    requires co < |s.outs| && co < |s.inchain|
  {
    s.(outs := s.outs[co := NIL], inchain := s.inchain[co := Arcp(NIL, s.inchain[co].co)])
  }

  lemma NothingCleared(c: seq<SSet>, ncolors: nat)
    requires Shaped(c, ncolors)
    ensures Cleared(c, c, ncolors, [])
  {
  }

  lemma ClearOne(c0: seq<SSet>, c: seq<SSet>, ncolors: nat, cut: seq<Arcp>, a: Arcp)
    requires Cleared(c0, c, ncolors, cut)
    requires 0 <= a.ss < |c| && a.co < ncolors
    ensures |c| == |c0| && Shaped(c, ncolors) && Shaped(c0, ncolors)
    ensures Cleared(c0, c[a.ss := WithoutArc(c[a.ss], a.co)], ncolors, cut + [a])
    ensures a !in cut ==> c[a.ss].inchain[a.co] == c0[a.ss].inchain[a.co]
  {
    var c' := c[a.ss := WithoutArc(c[a.ss], a.co)];
    forall i, k | 0 <= i < |c'| && 0 <= k < ncolors
      ensures c'[i].outs[k] == if Arcp(i, k) in cut + [a] then NIL else c0[i].outs[k]
    {
      if i == a.ss && k == a.co { assert Arcp(i, k) == a; }
    }
  }

  /** The effect of clearing the in-arcs ch of p. */
  ghost predicate ArcsCut(c0: seq<SSet>, c: seq<SSet>, ncolors: nat, p: nat, ch: seq<Arcp>) {
    && Shaped(c0, ncolors) && Shaped(c, ncolors) && SameSets(c0, c)
    && p < |c0| && c[p].ins.ss == NIL
    && (forall q :: 0 <= q < |c| && q != p ==> c[q].ins == c0[q].ins)
    && OutsExcept(c0, c, ncolors, ch)
    && (forall i, k {:trigger c[i].inchain[k]} :: 0 <= i < |c| && 0 <= k < ncolors && Arcp(i, k) !in ch ==>
          c[i].inchain[k] == c0[i].inchain[k])
  }

  /** Dropping the whole chain of p. */
  lemma CutChain(c0: seq<SSet>, c: seq<SSet>, ncolors: nat, chains: seq<seq<Arcp>>, p: nat)
    requires ChainsOk(c0, ncolors, chains) && p < |c0| && ArcsCut(c0, c, ncolors, p, chains[p])
    ensures ChainsOk(c, ncolors, chains[p := []])
    ensures forall a: Arcp :: !LeadsTo(c, ncolors, a, p)
  {
    assert ChainOk(c0, ncolors, p, chains[p]);
    assert forall j :: 0 <= j < |chains[p]| ==> LeadsTo(c0, ncolors, chains[p][j], p);
    forall a: Arcp ensures !LeadsTo(c, ncolors, a, p) {
      if 0 <= a.ss < |c| && a.co < ncolors && c[a.ss].outs[a.co] == p {
        assert a == Arcp(a.ss, a.co) && LeadsTo(c0, ncolors, Arcp(a.ss, a.co), p);
      }
    }
    var chains' := chains[p := []];
    forall q | 0 <= q < |c| ensures ChainOk(c, ncolors, q, chains'[q]) {
      assert ChainOk(c0, ncolors, q, chains[q]);
      if q != p {
        forall a: Arcp ensures LeadsTo(c, ncolors, a, q) <==> LeadsTo(c0, ncolors, a, q) {
          assert a == Arcp(a.ss, a.co);
        }
        forall a: Arcp | LeadsTo(c0, ncolors, a, q) ensures c[a.ss].inchain[a.co] == c0[a.ss].inchain[a.co] {
          assert a == Arcp(a.ss, a.co);
        }
        KeepChain(c0, c, ncolors, q, chains[q]);
      }
    }
  }

  /** An entry without arcs can be added at the end. */
  lemma FreshChain(c0: seq<SSet>, s: SSet, ncolors: nat, chains: seq<seq<Arcp>>)
    requires ChainsOk(c0, ncolors, chains)
    requires s.ins.ss == NIL && s.outs == seq(ncolors, _ => NIL) && |s.inchain| == ncolors
    ensures ChainsOk(c0 + [s], ncolors, chains + [[]])
  {
    var c := c0 + [s];
    forall p | 0 <= p < |c| ensures ChainOk(c, ncolors, p, (chains + [[]])[p]) {
      if p < |c0| {
        assert ChainOk(c0, ncolors, p, chains[p]);
        assert forall a: Arcp :: LeadsTo(c, ncolors, a, p) <==> LeadsTo(c0, ncolors, a, p);
        assert forall k :: 0 <= k < |chains[p]| ==> LeadsTo(c0, ncolors, chains[p][k], p);
      } else {
        assert forall a: Arcp :: !LeadsTo(c, ncolors, a, p);
      }
    }
  }

  /** The arc (r, i) is on the chain of the entry it leads to. */
  lemma ChainOfArc(c: seq<SSet>, ncolors: nat, chains: seq<seq<Arcp>>, r: nat, i: nat)
    requires ChainsOk(c, ncolors, chains) && r < |c| && i < ncolors && 0 <= c[r].outs[i] < |c|
    ensures var p: nat := c[r].outs[i];
            && Shaped(c, ncolors) && |chains| == |c| && Linked(c, ncolors, p, chains[p]) && Distinct(chains[p])
            && Arcp(r, i) in chains[p] && forall m :: 0 <= m < |chains[p]| ==> LeadsTo(c, ncolors, chains[p][m], p)
  {
    var p: nat := c[r].outs[i];
    assert ChainOk(c, ncolors, p, chains[p]) && LeadsTo(c, ncolors, Arcp(r, i), p);
  }

  lemma UnlinkByUpdate(c0: seq<SSet>, c: seq<SSet>, ncolors: nat, chains: seq<seq<Arcp>>, p: nat, k: nat, r: nat, i: nat)
    requires ChainsOk(c0, ncolors, chains) && p < |c0| && r < |c0| && i < ncolors
    requires p != r && k < |chains[p]| && chains[p][k] == Arcp(r, i)
    requires k > 0 ==> LeadsTo(c0, ncolors, chains[p][k - 1], p)
    requires var l := if k == 0 then chains[p][k] else chains[p][k - 1];
             var c1 := if k == 0 then c0[p := c0[p].(ins := c0[r].inchain[i])]
                       else c0[l.ss := c0[l.ss].(inchain := c0[l.ss].inchain[l.co := c0[r].inchain[i]])];
             c == c1[r := WithoutArc(c1[r], i)]
    ensures ChainsOk(c, ncolors, chains[p := chains[p][..k] + chains[p][k + 1..]])
    ensures SameSets(c0, c) && OutsExcept(c0, c, ncolors, [Arcp(r, i)])
  {
    assert ChainOk(c0, ncolors, p, chains[p]) && LeadsTo(c0, ncolors, chains[p][k], p);
    RemovedByUpdate(c0, c, ncolors, p, r, i, k == 0, if k == 0 then chains[p][k] else chains[p][k - 1]);
    UnlinkArc(c0, c, ncolors, chains, p, k);
  }

  lemma RemovedByUpdate(c0: seq<SSet>, c: seq<SSet>, ncolors: nat, p: nat, r: nat, i: nat, first: bool, l: Arcp)
    requires Shaped(c0, ncolors) && p < |c0| && r < |c0| && i < ncolors && p != r
    requires LeadsTo(c0, ncolors, Arcp(r, i), p) && LeadsTo(c0, ncolors, l, p)
    requires !first ==> l != Arcp(r, i)
    requires var c1 := if first then c0[p := c0[p].(ins := c0[r].inchain[i])]
                       else c0[l.ss := c0[l.ss].(inchain := c0[l.ss].inchain[l.co := c0[r].inchain[i]])];
             c == c1[r := WithoutArc(c1[r], i)]
    ensures ArcRemoved(c0, c, ncolors, p, Arcp(r, i), first, l)
    ensures OutsExcept(c0, c, ncolors, [Arcp(r, i)])
  {
  }

  /** Clearing all arcs of the chain of p and then its head drops the chain. */
  lemma CutByUpdate(c0: seq<SSet>, c1: seq<SSet>, ncolors: nat, chains: seq<seq<Arcp>>, p: nat)
    requires ChainsOk(c0, ncolors, chains) && p < |c0| && Cleared(c0, c1, ncolors, chains[p])
    ensures p < |c1| && var c := c1[p := c1[p].(ins := Arcp(NIL, c1[p].ins.co))];
            && ChainsOk(c, ncolors, chains[p := []])
            && SameSets(c0, c) && OutsExcept(c0, c, ncolors, chains[p])
            && (forall a: Arcp :: !LeadsTo(c, ncolors, a, p))
  {
    var c := c1[p := c1[p].(ins := Arcp(NIL, c1[p].ins.co))];
    assert ArcsCut(c0, c, ncolors, p, chains[p]);
    CutChain(c0, c, ncolors, chains, p);
  }
}
