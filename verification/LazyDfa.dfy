/** The lazy DFA and its two matching engines. */
module LazyDfa {
  import opened CompactNfa
  import opened StateSetCache
  import opened CacheTracking

  /** The cache size that a DFA for c gets. */
  function CacheSize(c: Cnfa, small: bool): nat {
    if small then 7 else 2 * c.nstates
  }

  class Dfa {
    const t: Target
    const nssets: nat
    const ssets: array<SSet>
    var nssused: nat
    var lastpost: int
    var lastnopr: int
    var search: nat
    ghost var chains: seq<seq<Arcp>>

    ghost predicate Shape()
      reads this
    {
      && t.Valid() && t.cnfa.NoShortcut()
      && Roomy(t, nssets) && nssets == ssets.Length && nssused <= nssets && search <= nssets
    }

    /** The entries in use. */
    ghost function Cache(): (c: seq<SSet>)
      requires nssused <= ssets.Length
      reads this, ssets
      ensures |c| == nssused && forall i :: 0 <= i < nssused ==> c[i] == ssets[i]
    {
      ssets[..nssused]
    }

    /** The cache agrees with the NFA and its in-arc chains are exact. */
    ghost predicate Valid()
      reads this, ssets
    {
      Shape() && CacheOk(t, Cache(), NIL) && ChainsOk(Cache(), t.cnfa.ncolors, chains)
    }

    constructor (t: Target, nssets: nat)
      requires t.Valid() && t.cnfa.NoShortcut() && Roomy(t, nssets)
      ensures Valid() && fresh(ssets) && this.t == t && this.nssets == nssets && nssused == 0
    {
      this.t := t;
      this.nssets := nssets;
      ssets := new SSet[nssets];
      nssused, lastpost, lastnopr, search := 0, NIL, NIL, 0;
      chains := [];
    }

    /** Chooses the entry for the next state set: an unused one, else an expendable one. */
    method PickNextSS(cp: nat, start: nat) returns (r: nat)
      requires Shape()
      requires nssused == nssets ==> exists i :: 0 <= i < nssets && Expendable(ssets[i], Ancient(nssets, cp, start))
      modifies this`nssused, this`search, ssets
      ensures Shape() && r < nssused && chains == old(chains)
      ensures old(nssused) < nssets ==>
                && nssused == old(nssused) + 1 && r == old(nssused)
                && Cache() == old(Cache()) + [ssets[r]]
                && !ssets[r].starter && !ssets[r].poststate && !ssets[r].locked && !ssets[r].noprogress
                && ssets[r].ins.ss == NIL
                && ssets[r].outs == seq(t.cnfa.ncolors, _ => NIL)
                && |ssets[r].inchain| == t.cnfa.ncolors
      ensures old(nssused) == nssets ==>
                Cache() == old(Cache()) && nssused == nssets && Expendable(ssets[r], Ancient(nssets, cp, start))
    {
      if nssused < nssets {
        r := nssused;
        nssused := nssused + 1;
        ssets[r] := ssets[r].(starter := false, poststate := false, locked := false, noprogress := false,
                              ins := Arcp(NIL, 0),
                              outs := seq(t.cnfa.ncolors, _ => NIL),
                              inchain := seq(t.cnfa.ncolors, _ => Arcp(NIL, 0)));
        return;
      }
      var ancient := if cp - start > nssets * 2 / 3 then cp - nssets * 2 / 3 else start;
      r := search;
      while r < nssets
        invariant search <= r <= nssets
        invariant forall i :: search <= i < r ==> !Expendable(ssets[i], ancient)
      {
        if (ssets[r].lastseen == NIL || ssets[r].lastseen < ancient) && !ssets[r].locked {
          search := r + 1;
          return;
        }
        r := r + 1;
      }
      r := 0;
      while r < search
        invariant 0 <= r <= search
        invariant forall i :: 0 <= i < r ==> !Expendable(ssets[i], ancient)
      {
        if (ssets[r].lastseen == NIL || ssets[r].lastseen < ancient) && !ssets[r].locked {
          search := r + 1;
          return;
        }
        r := r + 1;
      }
      assert false;
    }

    /** Walks the chain of r and clears every arc on it. */
    method ZapChain(r: nat, ghost ch: seq<Arcp>)
      requires Shape() && r < nssused && Shaped(Cache(), t.cnfa.ncolors)
      requires Linked(Cache(), t.cnfa.ncolors, r, ch) && Distinct(ch)
      modifies ssets
      ensures Shape() && Cleared(old(Cache()), Cache(), t.cnfa.ncolors, ch)
    {
      hide Roomy, Cleared, OutsExcept, SameSets, Target.Valid, Cnfa.NoShortcut;
      ghost var c0, n := Cache(), t.cnfa.ncolors;
      ghost var k := 0;
      var ap := ssets[r].ins;
      NothingCleared(c0, n);
      while ap.ss != NIL
        invariant Shape() && 0 <= k <= |ch| && (if k < |ch| then ap == ch[k] else ap.ss == NIL)
        invariant Cleared(c0, Cache(), n, ch[..k])
        decreases |ch| - k
      {
        assert LeadsTo(c0, n, ch[k], r) && ch[k] !in ch[..k];
        assert if k + 1 < |ch| then c0[ch[k].ss].inchain[ch[k].co] == ch[k + 1] else c0[ch[k].ss].inchain[ch[k].co].ss == NIL;
        ghost var c := Cache();
        ClearOne(c0, c, n, ch[..k], ch[k]);
        var p, co := ap.ss, ap.co;
        ap := ssets[p].inchain[co];
        ssets[p] := WithoutArc(ssets[p], co);
        assert Cache() == c[p := WithoutArc(c[p], co)];
        assert ch[..k + 1] == ch[..k] + [ch[k]];
        k := k + 1;
      }
      assert ch[..k] == ch;
    }

    /** Clears the in-arcs of entry r. */
    method ClearInArcs(r: nat)
      requires Shape() && r < nssused && ChainsOk(Cache(), t.cnfa.ncolors, chains)
      modifies this`chains, ssets
      ensures Shape() && ChainsOk(Cache(), t.cnfa.ncolors, chains)
      ensures SameSets(old(Cache()), Cache())
      ensures forall a: Arcp :: !LeadsTo(Cache(), t.cnfa.ncolors, a, r)
      ensures OutsExcept(old(Cache()), Cache(), t.cnfa.ncolors, old(chains[r]))
    {
      ghost var c0, n := Cache(), t.cnfa.ncolors;
      assert ChainOk(c0, n, r, chains[r]);
      hide Roomy, ChainOk, Cleared, Target.Valid, Cnfa.NoShortcut;
      ZapChain(r, chains[r]);
      ghost var c1 := Cache();
      CutByUpdate(c0, c1, n, chains, r);
      ssets[r] := ssets[r].(ins := Arcp(NIL, ssets[r].ins.co));
      assert Cache() == c1[r := c1[r].(ins := Arcp(NIL, c1[r].ins.co))];
      chains := chains[r := []];
    }

    /** Walks the chain of p to the arc just before (r, i), which is arc number k. */
    method ArcBefore(p: nat, r: nat, i: nat, ghost ch: seq<Arcp>, ghost k: nat) returns (lastap: Arcp)
      requires Shape() && Shaped(Cache(), t.cnfa.ncolors) && p < nssused
      requires Linked(Cache(), t.cnfa.ncolors, p, ch) && Distinct(ch)
      requires 0 < k < |ch| && ch[k] == Arcp(r, i)
      ensures lastap == ch[k - 1] && LeadsTo(Cache(), t.cnfa.ncolors, lastap, p)
    {
      ghost var j := 0;
      var ap := ssets[p].ins;
      lastap := Arcp(NIL, 0);
      assert forall m :: 0 <= m < |ch| ==> LeadsTo(Cache(), t.cnfa.ncolors, ch[m], p);
      while ap.ss != NIL && !(ap.ss == r && ap.co == i)
        invariant 0 <= j <= k && ap == ch[j] && (j > 0 ==> lastap == ch[j - 1])
        decreases k - j
      {
        assert j < k;
        lastap := ap;
        ap := ssets[ap.ss].inchain[ap.co];
        j := j + 1;
      }
      assert j == k;
    }

    /** Takes out-arc i of entry r off the chain of the entry it leads to. */
    method RemoveOutArc(r: nat, i: nat)
      requires Shape() && r < nssused && i < t.cnfa.ncolors && ChainsOk(Cache(), t.cnfa.ncolors, chains)
      requires 0 <= Cache()[r].outs[i] < nssused && Cache()[r].outs[i] != r
      modifies this`chains, ssets
      ensures Shape() && ChainsOk(Cache(), t.cnfa.ncolors, chains)
      ensures SameSets(old(Cache()), Cache())
      ensures OutsExcept(old(Cache()), Cache(), t.cnfa.ncolors, [Arcp(r, i)])
    {
      hide Roomy, ChainOk, OutsExcept, Target.Valid, Cnfa.NoShortcut, SameSets, SameSet, ChainsOk;
      ghost var c0, n := Cache(), t.cnfa.ncolors;
      ChainOfArc(c0, n, chains, r, i);
      var p := ssets[r].outs[i];
      ghost var ch := chains[p];
      ghost var k :| 0 <= k < |ch| && ch[k] == Arcp(r, i);
      if ssets[p].ins == Arcp(r, i) {
        assert k == 0;
        ssets[p] := ssets[p].(ins := ssets[r].inchain[i]);
      } else {
        var lastap := ArcBefore(p, r, i, ch, k);
        ssets[lastap.ss] := ssets[lastap.ss].(inchain := ssets[lastap.ss].inchain[lastap.co := ssets[r].inchain[i]]);
      }
      ghost var c1 := Cache();
      ssets[r] := WithoutArc(ssets[r], i);
      assert Cache() == c1[r := WithoutArc(c1[r], i)];
      chains := chains[p := ch[..k] + ch[k + 1..]];
      UnlinkByUpdate(c0, Cache(), n, old(chains), p, k, r, i);
    }

    /** Takes entry r off the chains of all entries its out-arcs lead to. */
    method ClearOutArcs(r: nat)
      requires Shape() && r < nssused && ChainsOk(Cache(), t.cnfa.ncolors, chains)
      requires forall a: Arcp :: !LeadsTo(Cache(), t.cnfa.ncolors, a, r)
      modifies this`chains, ssets
      ensures Shape() && ChainsOk(Cache(), t.cnfa.ncolors, chains)
      ensures SameSets(old(Cache()), Cache())
      ensures forall i, co {:trigger Cache()[i].outs[co]} :: 0 <= i < nssused && 0 <= co < t.cnfa.ncolors ==>
                Cache()[i].outs[co] == if i == r then NIL else old(Cache())[i].outs[co]
    {
      ghost var c0 := Cache();
      ghost var n := t.cnfa.ncolors;
      for i := 0 to t.cnfa.ncolors
        invariant Shape() && ChainsOk(Cache(), n, chains) && SameSets(c0, Cache())
        invariant forall q, co {:trigger Cache()[q].outs[co]} :: 0 <= q < nssused && 0 <= co < n ==>
                    Cache()[q].outs[co] == if q == r && co < i then NIL else c0[q].outs[co]
      {
        assert !LeadsTo(c0, n, Arcp(r, i), r);
        if ssets[r].outs[i] != NIL {
          RemoveOutArc(r, i);
        }
      }
    }

    /** Takes entry r off every chain. */
    method Detach(r: nat)
      requires Shape() && r < nssused && ChainsOk(Cache(), t.cnfa.ncolors, chains)
      modifies this`chains, ssets
      ensures Shape() && ChainsOk(Cache(), t.cnfa.ncolors, chains)
      ensures SameSets(old(Cache()), Cache())
      ensures forall i, co {:trigger Cache()[i].outs[co]} :: 0 <= i < nssused && 0 <= co < t.cnfa.ncolors ==>
                && Cache()[i].outs[co] != r
                && (i == r ==> Cache()[i].outs[co] == NIL)
                && (Cache()[i].outs[co] == NIL || Cache()[i].outs[co] == old(Cache())[i].outs[co])
    {
      ClearInArcs(r);
      ghost var c1 := Cache();
      ClearOutArcs(r);
      forall i, co | 0 <= i < nssused && 0 <= co < t.cnfa.ncolors ensures Cache()[i].outs[co] != r {
        assert !LeadsTo(c1, t.cnfa.ncolors, Arcp(i, co), r);
      }
    }

    /** Gets an entry for a new state set. Its arcs are cleared and its stamp is remembered;
        the rest of its contents is left to the caller. */
    method GetVacantSS(cp: nat, start: nat) returns (r: nat)
      requires Valid()
      requires nssused == nssets ==> exists i :: 0 <= i < nssets && Expendable(ssets[i], Ancient(nssets, cp, start))
      modifies this, ssets
      ensures Shape() && r < nssused && CacheOk(t, Cache(), r) && ChainsOk(Cache(), t.cnfa.ncolors, chains)
      ensures forall co :: 0 <= co < t.cnfa.ncolors ==> ssets[r].outs[co] == NIL
      ensures old(nssused) < nssets ==>
                && nssused == old(nssused) + 1 && r == old(nssused)
                && SameSets(old(Cache()), Cache()[..r])
                && lastpost == old(lastpost) && lastnopr == old(lastnopr)
      ensures old(nssused) == nssets ==>
                && nssused == nssets && SameSets(old(Cache()), Cache())
                && Expendable(ssets[r], Ancient(nssets, cp, start))
                && lastpost == Remember(ssets[r].poststate, ssets[r].lastseen, old(lastpost))
                && lastnopr == Remember(ssets[r].noprogress, ssets[r].lastseen, old(lastnopr))
      ensures forall i, co {:trigger Cache()[i].outs[co]} :: 0 <= i < nssused && i != r && 0 <= co < t.cnfa.ncolors ==>
                Cache()[i].outs[co] == NIL || (i < |old(Cache())| && Cache()[i].outs[co] == old(Cache())[i].outs[co])
    {
      hide Roomy, Linked, LeadsTo, Agrees, Target.NoProgressSet, EntryOk, Cnfa.NoShortcut, Target.Valid;
      ghost var c0, n := Cache(), t.cnfa.ncolors;
      r := PickNextSS(cp, start);
      if nssused > |c0| {
        FreshChain(c0, ssets[r], n, chains);
        chains := chains + [[]];
      }
      ghost var c1 := Cache();
      Detach(r);
      NoteEvicted(r);
      VacantCache(t, c0, c1, Cache(), r);
    }

    /** Remembers the stamp of the entry that is given up. */
    method NoteEvicted(r: nat)
      requires r < ssets.Length
      modifies this`lastpost, this`lastnopr
      ensures lastpost == Remember(ssets[r].poststate, ssets[r].lastseen, old(lastpost))
      ensures lastnopr == Remember(ssets[r].noprogress, ssets[r].lastseen, old(lastnopr))
    {
      if ssets[r].poststate && ssets[r].lastseen != lastpost && (lastpost == NIL || lastpost < ssets[r].lastseen) {
        lastpost := ssets[r].lastseen;
      }
      if ssets[r].noprogress && ssets[r].lastseen != lastnopr && (lastnopr == NIL || lastnopr < ssets[r].lastseen) {
        lastnopr := ssets[r].lastseen;
      }
    }

    /** Part of miss: the states one arc of colour co away, with the two facts gathered on the way. */
    method MoveSet(S: set<nat>, co: nat) returns (work: set<nat>, isPost: bool, noProgress: bool, gotState: bool)
      requires Shape() && co < t.cnfa.ncolors && S <= Below(t.cnfa.nstates)
      ensures work == Move(t.cnfa, S, co)
      ensures gotState == (work != {}) && isPost == (t.cnfa.post in work) && noProgress == t.NoProgressSet(work)
    {
      work, isPost, noProgress, gotState := {}, false, true, false;
      for i := 0 to t.cnfa.nstates
        invariant work <= Move(t.cnfa, S, co)
        invariant forall s, to :: 0 <= s < i && s in S && Carc(co, to) in t.cnfa.states[s] ==> to in work
        invariant gotState == (work != {}) && isPost == (t.cnfa.post in work) && noProgress == t.NoProgressSet(work)
      {
        if i in S {
          var arcs := t.cnfa.states[i];
          for k := 0 to |arcs|
            invariant work <= Move(t.cnfa, S, co)
            invariant forall s, to :: 0 <= s < i && s in S && Carc(co, to) in t.cnfa.states[s] ==> to in work
            invariant forall to :: Carc(co, to) in arcs[..k] ==> to in work
            invariant gotState == (work != {}) && isPost == (t.cnfa.post in work) && noProgress == t.NoProgressSet(work)
          {
            if arcs[k].co == co {
              assert arcs[k] == Carc(co, arcs[k].to) && HasArc(t.cnfa, S, co, arcs[k].to);
              work, gotState := work + {arcs[k].to}, true;
              if arcs[k].to == t.cnfa.post { isPost := true; }
              if !t.cnfa.noprogress[arcs[k].to] { noProgress := false; }
            }
          }
          assert arcs[..|arcs|] == arcs;
        }
      }
    }

    /** Part of miss: adds the states reached through constraint arcs that hold at cp, pass after pass. */
    method CloseSet(work0: set<nat>, cp: nat, isPost0: bool, noProgress0: bool)
      returns (work: set<nat>, isPost: bool, noProgress: bool, saw: bool)
      requires Shape() && work0 <= Below(t.cnfa.nstates)
      requires isPost0 == (t.cnfa.post in work0) && noProgress0 == t.NoProgressSet(work0)
      ensures work == t.LaClosure(work0, cp)
      ensures isPost == (t.cnfa.post in work) && noProgress == t.NoProgressSet(work)
      ensures !saw ==> forall pos: nat :: work == t.LaClosure(work0, pos)
    {
      hide Roomy, Target.IsClosure, Target.NoProgressSet;
      work, isPost, noProgress, saw := work0, isPost0, noProgress0, false;
      var again := work0 != {} && t.cnfa.haslacons;
      NoLacons(work0, cp);
      while again
        invariant Closing(work0, cp, work, isPost, noProgress)
        invariant !again ==> t.LaClosed(work, cp)
        invariant !saw ==> work == work0 && (!again ==> NoConstraintsFrom(work))
        decreases again, Below(t.cnfa.nstates) - work
      {
        ghost var before := work;
        again := false;
        for i := 0 to t.cnfa.nstates
          invariant Closing(work0, cp, work, isPost, noProgress) && before <= work && again == (work != before)
          invariant !again ==> FollowedTo(i, cp, work)
          invariant !saw ==> work == work0 && PlainTo(i, work)
        {
          if i in work {
            var moved, sawHere;
            work, isPost, noProgress, moved, sawHere := FollowState(i, cp, work, isPost, noProgress, work0);
            again, saw := again || moved, saw || sawHere;
          }
        }
        if !again { AllFollowed(cp, work); }
      }
      CloseSetDone(work0, cp, work, saw);
    }

    /** The closure is under way. */
    ghost predicate Closing(work0: set<nat>, cp: nat, work: set<nat>, isPost: bool, noProgress: bool)
      requires t.Valid() && work0 <= Below(t.cnfa.nstates)
    {
      && work0 <= work <= t.LaClosure(work0, cp) && work <= Below(t.cnfa.nstates)
      && isPost == (t.cnfa.post in work) && noProgress == t.NoProgressSet(work)
    }

    ghost predicate FollowedTo(i: nat, cp: nat, work: set<nat>)
      requires t.Valid() && i <= t.cnfa.nstates
    {
      forall s, k :: 0 <= s < i && s in work && 0 <= k < |t.cnfa.states[s]| ==> Followed(s, k, cp, work)
    }

    ghost predicate PlainTo(i: nat, work: set<nat>)
      requires t.Valid() && i <= t.cnfa.nstates
    {
      forall s, k :: 0 <= s < i && s in work && 0 <= k < |t.cnfa.states[s]| ==> t.cnfa.states[s][k].co < t.cnfa.ncolors
    }

    /** Without constraint arcs there is nothing to do. */
    lemma NoLacons(work: set<nat>, cp: nat)
      requires t.Valid() && work <= Below(t.cnfa.nstates)
      ensures work <= t.LaClosure(work, cp)
      ensures work == {} || !t.cnfa.haslacons ==> t.LaClosed(work, cp) && NoConstraintsFrom(work)
    {
    }

    /** Follows the constraint arcs out of one state. */
    method FollowState(i: nat, cp: nat, work0: set<nat>, isPost0: bool, noProgress0: bool, ghost start: set<nat>)
      returns (work: set<nat>, isPost: bool, noProgress: bool, moved: bool, saw: bool)
      requires t.Valid() && start <= Below(t.cnfa.nstates) && i < t.cnfa.nstates && i in work0
      requires Closing(start, cp, work0, isPost0, noProgress0)
      ensures Closing(start, cp, work, isPost, noProgress) && work0 <= work && moved == (work != work0)
      ensures !moved ==> forall k :: 0 <= k < |t.cnfa.states[i]| ==> Followed(i, k, cp, work)
      ensures !saw ==> !moved && forall k :: 0 <= k < |t.cnfa.states[i]| ==> t.cnfa.states[i][k].co < t.cnfa.ncolors
    {
      work, isPost, noProgress, moved, saw := work0, isPost0, noProgress0, false, false;
      var arcs := t.cnfa.states[i];
      for k := 0 to |arcs|
        invariant Closing(start, cp, work, isPost, noProgress) && work0 <= work && moved == (work != work0)
        invariant !moved ==> forall j :: 0 <= j < k ==> Followed(i, j, cp, work)
        invariant !saw ==> !moved && forall j :: 0 <= j < k ==> arcs[j].co < t.cnfa.ncolors
      {
        if arcs[k].co >= t.cnfa.ncolors {
          saw := true;
          if arcs[k].to !in work && t.lacon(arcs[k].co - t.cnfa.ncolors, cp) {
            work, moved := work + {arcs[k].to}, true;
            if arcs[k].to == t.cnfa.post { isPost := true; }
            if !t.cnfa.noprogress[arcs[k].to] { noProgress := false; }
          }
        }
      }
    }

    /** Part of miss: the state set that colour co leads to at position cp. */
    method NextSet(S: set<nat>, co: nat, cp: nat) returns (work: set<nat>, isPost: bool, noProgress: bool, saw: bool)
      requires Shape() && co < t.cnfa.ncolors && S <= Below(t.cnfa.nstates)
      ensures work == t.Step(S, co, cp) <= Below(t.cnfa.nstates)
      ensures isPost == (t.cnfa.post in work) && noProgress == t.NoProgressSet(work)
      ensures !saw ==> Agrees(t, S, co, work)
    {
      var gotState;
      work, isPost, noProgress, gotState := MoveSet(S, co);
      work, isPost, noProgress, saw := CloseSet(work, cp, isPost, noProgress);
      if !gotState {
        StepOfNone(t, co, cp);
      }
    }

    ghost predicate Followed(s: nat, k: nat, cp: nat, work: set<nat>)
      requires t.Valid() && s < t.cnfa.nstates && k < |t.cnfa.states[s]|
    {
      t.cnfa.states[s][k].co >= t.cnfa.ncolors && t.lacon(t.cnfa.states[s][k].co - t.cnfa.ncolors, cp) ==>
        t.cnfa.states[s][k].to in work
    }

    lemma AllFollowed(cp: nat, work: set<nat>)
      requires t.Valid() && work <= Below(t.cnfa.nstates)
      requires FollowedTo(t.cnfa.nstates, cp, work)
      ensures t.LaClosed(work, cp)
    {
      forall s, k | s in work && s < t.cnfa.nstates && 0 <= k < |t.cnfa.states[s]|
                    && t.cnfa.states[s][k].co >= t.cnfa.ncolors && t.lacon(t.cnfa.states[s][k].co - t.cnfa.ncolors, cp)
        ensures t.cnfa.states[s][k].to in work
      {
        assert Followed(s, k, cp, work);
      }
    }

    ghost predicate NoConstraintsFrom(S: set<nat>)
      requires t.Valid()
    {
      forall s, k :: s in S && s < t.cnfa.nstates && 0 <= k < |t.cnfa.states[s]| ==> t.cnfa.states[s][k].co < t.cnfa.ncolors
    }

    lemma CloseSetDone(work0: set<nat>, cp: nat, work: set<nat>, saw: bool)
      requires t.Valid() && work0 <= Below(t.cnfa.nstates) && work0 <= work <= t.LaClosure(work0, cp)
      requires t.LaClosed(work, cp)
      requires !saw ==> work == work0 && NoConstraintsFrom(work)
      ensures work == t.LaClosure(work0, cp)
      ensures !saw ==> forall pos: nat :: work == t.LaClosure(work0, pos)
    {
      if !saw {
        forall pos: nat ensures work == t.LaClosure(work0, pos) {
          assert t.IsClosure(work0, pos, work);
          ClosureUnique(t, work0, pos, work);
        }
      }
    }

    /** Part of miss: an entry other than css for a state set that is not in the cache. */
    method Vacate(css: nat, cp: nat, start: nat, ghost cur: int) returns (p: nat)
      requires Valid() && css < nssused && start <= cp && cp - 1 <= cur <= cp && cur <= |t.text|
      requires Tracks(t, Cache(), lastpost, lastnopr, start, cur, NIL)
      requires css != 0 ==> start <= cur == Cache()[css].lastseen
      modifies this, ssets
      ensures Shape() && css < |old(Cache())| <= nssused && 0 < p < nssused && p != css
      ensures CacheOk(t, Cache(), p) && ChainsOk(Cache(), t.cnfa.ncolors, chains)
      ensures nssused == |old(Cache())| || nssused == |old(Cache())| + 1 == p + 1
      ensures forall i :: 0 <= i < |old(Cache())| ==> SameSet(old(Cache())[i], Cache()[i])
      ensures forall co :: 0 <= co < t.cnfa.ncolors ==> ssets[p].outs[co] == NIL
      ensures NoNewArcs(old(Cache())[css], Cache()[css])
      ensures Tracks(t, Cache(), lastpost, lastnopr, start, cur, p)
    {
      hide Roomy, ChainsOk, Recorded, Agrees, Target.NoProgressSet;
      ghost var c0, lp0, ln0 := Cache(), lastpost, lastnopr;
      if nssused == nssets {
        assert Cache() == ssets[..];
        VictimExists(t, Cache(), lastpost, lastnopr, start, cur, cp);
      }
      p := GetVacantSS(cp, start);
      ghost var c := Cache();
      if nssused > |c0| {
        assert c == c[..p] + [c[p]];
        TracksSame(t, c0, c[..p], lp0, ln0, start, cur, NIL);
        TracksFresh(t, c[..p], c[p], lp0, ln0, start, cur);
      } else {
        TracksSame(t, c0, c, lp0, ln0, start, cur, NIL);
        assert c0[p].locked == (p == 0) && SameSet(c0[p], c[p]) && SameSet(c0[css], c[css]) && EntryOk(t, c0[p]);
        EvictTracks(t, c, lp0, ln0, start, cur, p);
      }
    }

    /** Part of miss: the entry for the set work, or nssused if there is none. */
    method Lookup(work: set<nat>) returns (p: nat)
      requires nssused <= ssets.Length
      ensures p <= nssused && (p < nssused ==> Cache()[p].states == work)
      ensures p == nssused ==> forall i :: 0 <= i < nssused ==> Cache()[i].states != work
    {
      p := 0;
      while p < nssused
        invariant p <= nssused
        invariant forall i :: 0 <= i < p ==> Cache()[i].states != work
      {
        if ssets[p].states == work { return; }
        p := p + 1;
      }
    }

    /** Part of miss: turns the vacant entry p into an entry for work. */
    method Fill(p: nat, work: set<nat>, isPost: bool, noProgress: bool, ghost start: nat, ghost cur: int)
      requires Shape() && 0 < p < nssused && cur <= |t.text|
      requires CacheOk(t, Cache(), p) && ChainsOk(Cache(), t.cnfa.ncolors, chains)
      requires forall co :: 0 <= co < t.cnfa.ncolors ==> ssets[p].outs[co] == NIL
      requires Tracks(t, Cache(), lastpost, lastnopr, start, cur, p)
      requires work != {} && work <= Below(t.cnfa.nstates)
      requires isPost == (t.cnfa.post in work) && noProgress == t.NoProgressSet(work)
      requires forall i :: 0 <= i < nssused && i != p ==> Cache()[i].states != work
      modifies ssets
      ensures Valid() && Tracks(t, Cache(), lastpost, lastnopr, start, cur, p)
      ensures Cache()[p].states == work && forall i :: 0 <= i < nssused && i != p ==> Cache()[i] == old(Cache())[i]
    {
      ghost var c := Cache();
      ssets[p] := ssets[p].(states := work, starter := false, poststate := isPost, locked := false, noprogress := noProgress);
      assert Cache() == c[p := ssets[p]];
      FillCache(t, c, p, ssets[p]);
      ChainsSame(c, Cache(), t.cnfa.ncolors, chains);
      TracksFill(t, c, lastpost, lastnopr, start, cur, p, ssets[p]);
    }

    /** Part of miss: a cache entry for the set work, which may be a new one. */
    method Intern(css: nat, work: set<nat>, isPost: bool, noProgress: bool, cp: nat, start: nat, ghost cur: int)
      returns (p: nat, ghost but: int)
      requires Valid() && css < nssused && start <= cp && cp - 1 <= cur <= cp && cur <= |t.text|
      requires Tracks(t, Cache(), lastpost, lastnopr, start, cur, NIL)
      requires css != 0 ==> start <= cur == Cache()[css].lastseen
      requires work != {} && work <= Below(t.cnfa.nstates)
      requires isPost == (t.cnfa.post in work) && noProgress == t.NoProgressSet(work)
      modifies this, ssets
      ensures Valid() && css < |old(Cache())| <= nssused && p < nssused && Cache()[p].states == work
      ensures Cache()[css].states == old(Cache())[css].states
      ensures Cache()[css].lastseen == old(Cache())[css].lastseen
      ensures NoNewArcs(old(Cache())[css], Cache()[css])
      ensures but == NIL || but == p
      ensures Tracks(t, Cache(), lastpost, lastnopr, start, cur, but)
    {
      but := NIL;
      p := Lookup(work);
      if p < nssused { return; }
      ghost var c0 := Cache();
      p := Vacate(css, cp, start, cur);
      but := p;
      forall i | 0 <= i < nssused && i != p ensures Cache()[i].states != work {
        assert SameSet(c0[i], Cache()[i]);
      }
      Fill(p, work, isPost, noProgress, start, cur);
    }

    /** Part of miss: records that colour co leads from css to r. */
    method Record(css: nat, co: nat, r: nat)
      requires Valid() && css < nssused && r < nssused && co < t.cnfa.ncolors
      requires Cache()[css].outs[co] == NIL && Agrees(t, Cache()[css].states, co, Cache()[r].states)
      modifies this`chains, ssets
      ensures Valid() && SameSets(old(Cache()), Cache())
      ensures Cache()[css].outs[co] == r
    {
      ghost var c := Cache();
      ssets[css] := ssets[css].(outs := ssets[css].outs[co := r], inchain := ssets[css].inchain[co := ssets[r].ins]);
      ghost var c1 := Cache();
      assert c1 == c[css := c[css].(outs := c[css].outs[co := r], inchain := c[css].inchain[co := c[r].ins])];
      ssets[r] := ssets[r].(ins := Arcp(css, co));
      assert Cache() == c1[r := c1[r].(ins := Arcp(css, co))];
      ArcAddedByUpdate(c, Cache(), t.cnfa.ncolors, css, co, r);
      LinkArc(c, Cache(), t.cnfa.ncolors, chains, css, co, r);
      chains := chains[r := [Arcp(css, co)] + chains[r]];
      LinkCache(t, c, Cache(), css, co, r);
    }

    /** Finds, or makes, the entry reached from css by colour co; NIL if that set is empty. The
        caller stamps the entry; until then a new one, number but, is not tracked. */
    method Miss(css: nat, co: nat, cp: nat, start: nat, ghost cur: int) returns (r: int, ghost but: int)
      requires Valid() && css < nssused && co < t.cnfa.ncolors
      requires start <= cp && cp - 1 <= cur <= cp && cur <= |t.text|
      requires Tracks(t, Cache(), lastpost, lastnopr, start, cur, NIL)
      requires css != 0 ==> start <= cur == Cache()[css].lastseen
      modifies this, ssets
      ensures Valid() && css < |old(Cache())| <= nssused
      ensures (r == NIL) == (t.Step(old(Cache()[css].states), co, cp) == {})
      ensures r != NIL ==> 0 <= r < nssused && Cache()[r].states == t.Step(old(Cache()[css].states), co, cp)
      ensures Cache()[css].states == old(Cache()[css].states) && Cache()[css].lastseen == old(Cache()[css].lastseen)
      ensures but == NIL || but == r
      ensures Tracks(t, Cache(), lastpost, lastnopr, start, cur, but)
    {
      hide Roomy, Linked, LeadsTo, Distinct, Recorded;
      ghost var S := Cache()[css].states;
      but := NIL;
      if ssets[css].outs[co] != NIL {
        assert Agrees(t, S, co, Cache()[ssets[css].outs[co]].states);
        return ssets[css].outs[co], NIL;
      }
      var work, isPost, noProgress, sawLAConstraints := NextSet(ssets[css].states, co, cp);
      if work == {} { return NIL, NIL; }
      r, but := Intern(css, work, isPost, noProgress, cp, start, cur);
      if !sawLAConstraints {
        ghost var c := Cache();
        Record(css, co, r);
        TracksSame(t, c, Cache(), lastpost, lastnopr, start, cur, but);
      }
    }

    /** Stamps entry r with position pos. */
    method Stamp(r: nat, pos: int)
      requires Valid() && r < nssused
      modifies ssets
      ensures Valid() && Cache() == old(Cache())[r := old(Cache())[r].(lastseen := pos)]
    {
      ghost var c := Cache();
      ssets[r] := ssets[r].(lastseen := pos);
      assert Cache() == c[r := c[r].(lastseen := pos)];
      CacheStamp(t, c, Cache(), chains);
    }

    /** Part of initialize: hand-crafts the starter entry of an empty cache. */
    method BuildStarter(start: nat) returns (ss: nat)
      requires Valid() && nssused == 0
      modifies this, ssets
      ensures Valid() && ss == 0 < nssused && Cache()[0].states == {t.cnfa.pre}
    {
      ss := GetVacantSS(start, start);
      ghost var c := Cache();
      ssets[ss] := ssets[ss].(states := {t.cnfa.pre}, starter := true, poststate := false, locked := true, noprogress := true);
      ChainsSame(c, Cache(), t.cnfa.ncolors, chains);
    }

    /** Part of initialize: forgets the stamps of an earlier run. */
    method ClearStamps()
      requires Valid()
      modifies ssets
      ensures Valid() && forall i :: 0 <= i < nssused ==> Cache()[i] == old(Cache())[i].(lastseen := NIL)
    {
      hide Roomy, CacheOk, ChainsOk;
      for i := 0 to nssused
        invariant Valid()
        invariant forall k :: 0 <= k < nssused ==> Cache()[k] == if k < i then old(Cache())[k].(lastseen := NIL) else old(Cache())[k]
      {
        Stamp(i, NIL);
      }
    }

    /** Makes sure the starter entry exists and begins a run at start. */
    method Initialize(start: nat) returns (ss: nat)
      requires Valid() && start <= |t.text|
      modifies this, ssets
      ensures Valid() && ss == 0 < nssused && Cache()[0].states == {t.cnfa.pre}
      ensures Tracks(t, Cache(), lastpost, lastnopr, start, start - 1, NIL)
    {
      if nssused > 0 && ssets[0].starter {
        ss := 0;
      } else {
        assert nssused == 0;
        ss := BuildStarter(start);
      }
      ClearStamps();
      Stamp(ss, start);
      lastpost, lastnopr := NIL, NIL;
      TracksStart(t, Cache(), start);
    }

    /** The last position of the run where no progress had been made. */
    method LastCold() returns (nopr: int)
      requires nssused <= ssets.Length
      ensures Latest(Cache(), Cold, if lastnopr == NIL then 0 else lastnopr, nopr)
    {
      nopr := lastnopr;
      if nopr == NIL {
        nopr := 0;
      }
      ghost var first := nopr;
      for i := 0 to nssused
        invariant Latest(Cache()[..i], Cold, first, nopr)
      {
        LatestNext(Cold, first, nopr, i);
        if ssets[i].noprogress && nopr < ssets[i].lastseen {
          nopr := ssets[i].lastseen;
        }
      }
      assert Cache()[..nssused] == Cache();
    }

    /** The last position of the run where it had a match, or NIL. */
    method LastMatch() returns (post: int)
      requires nssused <= ssets.Length && lastpost >= NIL
      requires forall i :: 0 <= i < nssused && ssets[i].poststate ==> ssets[i].lastseen >= NIL
      ensures Latest(Cache(), Match, lastpost, post)
    {
      post := lastpost;
      for i := 0 to nssused
        invariant Latest(Cache()[..i], Match, lastpost, post) && post >= NIL
      {
        LatestNext(Match, lastpost, post, i);
        if ssets[i].poststate && post != ssets[i].lastseen && (post == NIL || post < ssets[i].lastseen) {
          post := ssets[i].lastseen;
        }
      }
      assert Cache()[..nssused] == Cache();
    }

    lemma LatestNext(kind: Kind, first: int, m: int, i: nat)
      requires nssused <= ssets.Length && i < nssused && Latest(Cache()[..i], kind, first, m)
      ensures var s := Cache()[i];
              Latest(Cache()[..i + 1], kind, first, if Flagged(s, kind) && m < s.lastseen then s.lastseen else m)
    {
      var c := Cache()[..i + 1];
      assert c[..i] == Cache()[..i] && c[i] == Cache()[i];
      if m != first {
        var k :| 0 <= k < i && Flagged(Cache()[..i][k], kind) && Cache()[..i][k].lastseen == m;
        assert Flagged(c[k], kind) && c[k].lastseen == m;
      }
    }

    /** Reads the colour before position cp: moves to the entry for the next state set and stamps it. */
    method Advance(css: nat, co: nat, cp: nat, start: nat) returns (r: int)
      requires Valid() && css < nssused && start <= cp <= |t.text| && co == t.Padded(cp)
      requires Tracks(t, Cache(), lastpost, lastnopr, start, cp - 1, NIL)
      requires Cache()[css].states == if cp == start then {t.cnfa.pre} else t.After(start, cp - 1)
      requires css != 0 ==> start <= cp - 1 == Cache()[css].lastseen
      modifies this, ssets
      ensures Valid() && (r == NIL) == (t.After(start, cp) == {})
      ensures r != NIL ==> 0 <= r < nssused && Cache()[r].states == t.After(start, cp) && Cache()[r].lastseen == cp
      ensures r != NIL ==> Tracks(t, Cache(), lastpost, lastnopr, start, cp, NIL)
      ensures r == NIL ==> cp > start ==> Tracks(t, Cache(), lastpost, lastnopr, start, cp - 1, NIL)
    {
      hide Roomy, CacheOk, ChainsOk, Tracks, Target.After, Target.Step, Target.NoProgressSet, EntryOk, Latest;
      AfterStep(t, start, cp);
      ghost var but;
      r, but := Miss(css, co, cp, start, cp - 1);
      if r != NIL {
        ghost var c := Cache();
        Stamp(r, cp);
        StampTracks(t, c, lastpost, lastnopr, start, cp - 1, but, r);
      }
    }

    /** Finds the longest match from start that ends at or before stop. */
    method Longest(start: nat, stop: nat) returns (end: int, hitstop: bool)
      requires Valid() && start <= stop <= |t.text|
      modifies this, ssets
      ensures Valid()
      ensures end != NIL ==> start <= end <= stop && t.Accepts(start, end)
      ensures forall e :: start <= e <= stop && t.Accepts(start, e) ==> e <= end
      ensures hitstop == (stop == |t.text| && t.After(start, |t.text|) != {})
    {
      hide Roomy, CacheOk, ChainsOk, Tracks, Target.After, Target.Step, Target.NoProgressSet, EntryOk, Latest;
      var realstop := if stop == |t.text| then stop else stop + 1;
      var css: int := Initialize(start);
      var cp := start;
      hitstop := false;
      NoMatchAtStart(t, start);
      css := Advance(css, if cp == 0 then t.bos else t.text[cp - 1], cp, start);
      if css == NIL {
        Stuck(start, start);
        return NIL, false;
      }
      while cp < realstop
        invariant Valid() && start <= cp <= realstop && 0 <= css < nssused
        invariant Cache()[css].states == t.After(start, cp) != {} && Cache()[css].lastseen == cp
        invariant Tracks(t, Cache(), lastpost, lastnopr, start, cp, NIL)
      {
        var ss := Advance(css, t.text[cp], cp + 1, start);
        if ss == NIL {
          Stuck(start, cp + 1);
          break;
        }
        cp := cp + 1;
        css := ss;
      }
      if cp == |t.text| && stop == |t.text| {
        hitstop := true;
        end := LongestAtStop(css, start);
        return;
      }
      MatchStampsAreStamps(t, Cache(), lastpost, lastnopr, start, cp, NIL);
      var post := LastMatch();
      LatestMatch(t, Cache(), lastpost, lastnopr, start, cp, NIL, post);
      forall e | start <= e <= stop && t.Accepts(start, e) ensures e <= post - 1 {
        assert t.cnfa.post in t.After(start, e + 1);
      }
      end := if post != NIL then post - 1 else NIL;
    }

    /** The end of longest for a run that is still alive at the end of the string. */
    method LongestAtStop(css: nat, start: nat) returns (end: int)
      requires Valid() && start <= |t.text| && css < nssused
      requires Cache()[css].states == t.After(start, |t.text|) && Cache()[css].lastseen == |t.text|
      requires Tracks(t, Cache(), lastpost, lastnopr, start, |t.text|, NIL)
      requires t.cnfa.post !in t.After(start, start)
      modifies this, ssets
      ensures Valid()
      ensures end != NIL ==> start <= end <= |t.text| && t.Accepts(start, end)
      ensures forall e :: start <= e <= |t.text| && t.Accepts(start, e) ==> e <= end
    {
      hide Roomy, CacheOk, ChainsOk, Tracks, Target.After, Target.Step, Target.NoProgressSet, EntryOk, Latest;
      AfterStep(t, start, |t.text| + 1);
      var cp := |t.text|;
      var ss, but := Miss(css, t.eos, cp, start, cp);
      if ss != NIL {
        FlagOfEntry(t, Cache(), ss);
        if ssets[ss].poststate { return cp; }
      }
      MatchStampsAreStamps(t, Cache(), lastpost, lastnopr, start, cp, but);
      ghost var c := Cache();
      if ss != NIL { Stamp(ss, cp); }
      var post := LastMatch();
      if ss != NIL { LatestTidy(c, Match, lastpost, post, ss, cp); }
      LatestMatch(t, c, lastpost, lastnopr, start, cp, but, post);
      forall e | start <= e <= |t.text| && t.Accepts(start, e) ensures e <= post - 1 {
        assert t.cnfa.post in t.After(start, e + 1);
      }
      end := if post != NIL then post - 1 else NIL;
    }

    /** Finds the shortest match from start that ends between min and max, and, if the run gets that
        far, the last position at which no progress had been made. */
    method Shortest(start: nat, min: nat, max: nat) returns (end: int, cold: int, hitstop: bool)
      requires Valid() && start <= min <= max <= |t.text|
      modifies this, ssets
      ensures Valid()
      ensures end != NIL ==> min <= end <= max && t.Accepts(start, end)
      ensures forall e :: min <= e <= max && t.Accepts(start, e) ==> end != NIL && end <= e
      ensures end != NIL ==> cold != NIL
      ensures cold != NIL ==> ColdAt(start, cold, if end != NIL && end < |t.text| then end + 1
                                                  else if max < |t.text| then max + 1 else |t.text|)
      ensures hitstop == (max == |t.text| && end == NIL && t.After(start, |t.text|) != {})
    {
      hide Roomy, CacheOk, ChainsOk, Tracks, Target.After, Target.Step, Target.NoProgressSet, EntryOk, Latest;
      var realmin := if min == |t.text| then min else min + 1;
      var realmax := if max == |t.text| then max else max + 1;
      var ss, cp := ShortestRun(start, realmin, realmax);
      if ss == NIL {
        return NIL, NIL, false;
      }
      FlagOfEntry(t, Cache(), ss);
      cold := LastCold();
      LatestCold(t, Cache(), lastpost, lastnopr, start, cp, cold);
      hitstop := false;
      if ssets[ss].poststate && cp > min {
        return cp - 1, cold, false;
      } else if cp == |t.text| && max == |t.text| {
        AfterStep(t, start, |t.text| + 1);
        ghost var but;
        ss, but := Miss(ss, t.eos, cp, start, cp);
        if ss != NIL { FlagOfEntry(t, Cache(), ss); }
        if ss == NIL || !ssets[ss].poststate {
          hitstop := true;
        }
      }
      if ss == NIL || !ssets[ss].poststate {
        return NIL, cold, hitstop;
      }
      end := cp;
    }

    /** The main loop of shortest: reads until a match at or after realmin, or until realmax, or until
        the run is stuck (ss is then NIL). */
    method ShortestRun(start: nat, realmin: nat, realmax: nat) returns (ss: int, cp: nat)
      requires Valid() && start <= realmin <= realmax <= |t.text|
      modifies this, ssets
      ensures Valid() && start <= cp <= realmax
      ensures ss != NIL ==> 0 <= ss < nssused && Cache()[ss].states == t.After(start, cp) != {}
      ensures ss != NIL ==> Cache()[ss].lastseen == cp && Tracks(t, Cache(), lastpost, lastnopr, start, cp, NIL)
      ensures ss == NIL ==> t.After(start, |t.text|) == {}
      ensures ss == NIL ==> forall q :: cp < q <= |t.text| + 1 ==> t.After(start, q) == {}
      ensures forall q :: start <= q < cp && q >= realmin ==> t.cnfa.post !in t.After(start, q)
      ensures ss != NIL && cp < realmax ==> cp >= realmin && t.cnfa.post in t.After(start, cp)
      ensures ss == NIL ==> t.cnfa.post !in t.After(start, cp) || cp < realmin
      ensures t.cnfa.post !in t.After(start, start)
    {
      hide Roomy, CacheOk, ChainsOk, Tracks, Target.After, Target.Step, Target.NoProgressSet, EntryOk, Latest;
      ss := Initialize(start);
      cp := start;
      NoMatchAtStart(t, start);
      ss := Advance(ss, if cp == 0 then t.bos else t.text[cp - 1], cp, start);
      if ss == NIL {
        Stuck(start, start);
        return;
      }
      while cp < realmax
        invariant Valid() && start <= cp <= realmax && 0 <= ss < nssused
        invariant Cache()[ss].states == t.After(start, cp) != {} && Cache()[ss].lastseen == cp
        invariant Tracks(t, Cache(), lastpost, lastnopr, start, cp, NIL)
        invariant forall q :: start <= q <= cp && q >= realmin ==> t.cnfa.post !in t.After(start, q)
      {
        ss := Advance(ss, t.text[cp], cp + 1, start);
        if ss == NIL {
          Stuck(start, cp + 1);
          return;
        }
        cp := cp + 1;
        FlagOfEntry(t, Cache(), ss);
        if ssets[ss].poststate && cp >= realmin {
          return;
        }
      }
    }

    /** p is the last position up to cur where the run from start had made no progress. */
    ghost predicate ColdAt(start: nat, p: int, cur: nat)
      requires t.Valid() && cur <= |t.text|
    {
      && start <= p <= cur && (p == start || t.NoProgressSet(t.After(start, p)))
      && forall q :: p < q <= cur ==> !t.NoProgressSet(t.After(start, q))
    }

    /** A run that is stuck at position i matches nothing from there on. */
    lemma Stuck(start: nat, i: nat)
      requires t.Valid() && start <= i <= |t.text| + 1 && t.After(start, i) == {}
      ensures forall j :: i <= j <= |t.text| + 1 ==> t.After(start, j) == {}
    {
      forall j | i <= j <= |t.text| + 1 ensures t.After(start, j) == {} {
        StuckForever(t, start, i, j);
      }
    }
  }
}
