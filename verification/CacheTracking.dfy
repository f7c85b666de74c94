/** What a filled cache says about the NFA, and what its position stamps say
    about the run that filled it. */
module CacheTracking {
  import opened CompactNfa
  import opened StateSetCache

  /** The flags of an entry are functions of its state set. */
  ghost predicate EntryOk(t: Target, s: SSet)
    requires t.Valid()
  {
    && s.states != {} && s.states <= Below(t.cnfa.nstates)
    && s.poststate == (t.cnfa.post in s.states)
    && s.noprogress == t.NoProgressSet(s.states)
  }

  /** An out-arc records the NFA step, whatever the position. */
  ghost predicate Agrees(t: Target, S: set<nat>, co: nat, R: set<nat>)
    requires t.Valid()
  {
    forall pos: nat :: t.Step(S, co, pos) == R
  }

  /** Every entry except number but is right; only entry 0 is the locked starter. */
  ghost predicate CacheOk(t: Target, c: seq<SSet>, but: int)
    requires t.Valid()
  {
    && Shaped(c, t.cnfa.ncolors)
    && (forall i :: 0 <= i < |c| && i != but ==>
          EntryOk(t, c[i]) && c[i].starter == c[i].locked == (i == 0) && (i == 0 ==> c[i].states == {t.cnfa.pre}))
    && (forall i, j :: 0 <= i < j < |c| && i != but && j != but ==> c[i].states != c[j].states)
    && (forall i, co {:trigger c[i].outs[co]} :: 0 <= i < |c| && i != but && 0 <= co < t.cnfa.ncolors && c[i].outs[co] != NIL ==>
          0 <= c[i].outs[co] < |c| && c[i].outs[co] != but && Agrees(t, c[i].states, co, c[c[i].outs[co]].states))
  }

  /** A cache stays right except for entry r when r is emptied of arcs and other entries only lose arcs. */
  lemma VacantCache(t: Target, c0: seq<SSet>, c1: seq<SSet>, c: seq<SSet>, r: nat)
    requires t.Valid() && CacheOk(t, c0, NIL) && Shaped(c, t.cnfa.ncolors)
    requires SameSets(c1, c) && r < |c|
    requires |c0| <= |c| && (forall i :: 0 <= i < |c0| ==> c1[i] == c0[i])
    requires |c| == |c0| || (|c| == |c0| + 1 && r == |c0|)
    requires forall i, co {:trigger c[i].outs[co]} :: 0 <= i < |c| && i != r && 0 <= co < t.cnfa.ncolors ==>
               c[i].outs[co] == NIL || (c[i].outs[co] == c0[i].outs[co] && c[i].outs[co] != r)
    ensures CacheOk(t, c, r)
  {
    forall i, j | 0 <= i < j < |c| && i != r && j != r ensures c[i].states != c[j].states {
      assert SameSet(c1[i], c[i]) && SameSet(c1[j], c[j]);
    }
  }

  /** Filling the vacant entry r with a state set no other entry has. */
  lemma FillCache(t: Target, c: seq<SSet>, r: nat, s: SSet)
    requires t.Valid() && CacheOk(t, c, r) && 0 < r < |c|
    requires EntryOk(t, s) && !s.starter && !s.locked
    requires s.outs == c[r].outs && s.inchain == c[r].inchain && s.ins == c[r].ins
    requires forall co :: 0 <= co < t.cnfa.ncolors ==> c[r].outs[co] == NIL
    requires forall i :: 0 <= i < |c| && i != r ==> c[i].states != s.states
    ensures CacheOk(t, c[r := s], NIL)
  {
  }

  /** Chains depend only on arcs. */
  lemma ChainsSame(c0: seq<SSet>, c: seq<SSet>, ncolors: nat, chains: seq<seq<Arcp>>)
    requires ChainsOk(c0, ncolors, chains) && |c| == |c0|
    requires forall i :: 0 <= i < |c| ==> c[i].outs == c0[i].outs && c[i].inchain == c0[i].inchain && c[i].ins == c0[i].ins
    ensures ChainsOk(c, ncolors, chains)
  {
    forall p | 0 <= p < |c| ensures ChainOk(c, ncolors, p, chains[p]) {
      assert ChainOk(c0, ncolors, p, chains[p]);
      assert forall a: Arcp :: LeadsTo(c, ncolors, a, p) <==> LeadsTo(c0, ncolors, a, p);
      KeepChain(c0, c, ncolors, p, chains[p]);
    }
  }

  /** Recording an arc that agrees with the NFA. */
  lemma LinkCache(t: Target, c0: seq<SSet>, c: seq<SSet>, css: nat, co: nat, p: nat)
    requires t.Valid() && CacheOk(t, c0, NIL) && ArcAdded(c0, c, t.cnfa.ncolors, css, co, p)
    requires Agrees(t, c0[css].states, co, c0[p].states)
    ensures CacheOk(t, c, NIL)
  {
  }

  // ---------------------------------------------------------------- stamps

  /** The two things a run remembers: where it last had a match, where it last had made no progress. */
  datatype Kind = Match | Cold

  ghost predicate Is(t: Target, kind: Kind, S: set<nat>)
    requires t.Valid()
  {
    match kind
    case Match => t.cnfa.post in S
    case Cold => t.NoProgressSet(S)
  }

  ghost predicate Flagged(s: SSet, kind: Kind) {
    match kind
    case Match => s.poststate
    case Cold => s.noprogress
  }

  /** A stamp names a position where the run was in this state set. */
  ghost predicate StampOk(t: Target, s: SSet, i: int, start: nat, cur: int)
    requires t.Valid() && cur <= |t.text|
  {
    s.lastseen == NIL ||
    (&& start <= s.lastseen
     && (if i == 0 && s.lastseen == start then true else s.lastseen <= cur && t.After(start, s.lastseen) == s.states))
  }

  /** The stamps of flagged entries together with last know the latest position of the given kind. */
  ghost predicate Recorded(t: Target, c: seq<SSet>, last: int, kind: Kind, start: nat, cur: int, but: int)
    requires t.Valid() && cur <= |t.text|
  {
    && (last == NIL || (start <= last <= cur && Is(t, kind, t.After(start, last))) || (kind == Cold && last == start))
    && (forall q :: start <= q <= cur && Is(t, kind, t.After(start, q)) ==>
          q <= last || exists i :: 0 <= i < |c| && i != but && Flagged(c[i], kind) && q <= c[i].lastseen)
  }

  /** The run has visited start..cur; entry but is not yet stamped. */
  ghost predicate Tracks(t: Target, c: seq<SSet>, lastpost: int, lastnopr: int, start: nat, cur: int, but: int)
    requires t.Valid() && cur <= |t.text|
  {
    && |c| > 0 && but != 0
    && (forall i :: 0 <= i < |c| && i != but ==> StampOk(t, c[i], i, start, cur))
    && c[0].lastseen >= start
    && Recorded(t, c, lastpost, Match, start, cur, but)
    && Recorded(t, c, lastnopr, Cold, start, cur, but)
  }

  /** Arcs play no part in tracking. */
  lemma TracksSame(t: Target, c0: seq<SSet>, c: seq<SSet>, lp: int, ln: int, start: nat, cur: int, but: int)
    requires t.Valid() && cur <= |t.text| && SameSets(c0, c)
    requires Tracks(t, c0, lp, ln, start, cur, but)
    ensures Tracks(t, c, lp, ln, start, cur, but)
  {
    RecordedSame(t, c0, c, lp, Match, start, cur, but);
    RecordedSame(t, c0, c, ln, Cold, start, cur, but);
  }

  lemma RecordedSame(t: Target, c0: seq<SSet>, c: seq<SSet>, last: int, kind: Kind, start: nat, cur: int, but: int)
    requires t.Valid() && cur <= |t.text| && |c0| <= |c|
    requires forall i :: 0 <= i < |c0| && i != but ==> SameSet(c0[i], c[i])
    requires Recorded(t, c0, last, kind, start, cur, but)
    ensures Recorded(t, c, last, kind, start, cur, but)
  {
    forall q | start <= q <= cur && Is(t, kind, t.After(start, q)) && q > last
      ensures exists i :: 0 <= i < |c| && i != but && Flagged(c[i], kind) && q <= c[i].lastseen
    {
      var i :| 0 <= i < |c0| && i != but && Flagged(c0[i], kind) && q <= c0[i].lastseen;
      assert Flagged(c[i], kind) && q <= c[i].lastseen;
    }
  }

  /** A fresh entry at the end does not disturb the tracking of the others. */
  lemma TracksFresh(t: Target, c0: seq<SSet>, s: SSet, lp: int, ln: int, start: nat, cur: int)
    requires t.Valid() && cur <= |t.text|
    requires Tracks(t, c0, lp, ln, start, cur, NIL)
    ensures Tracks(t, c0 + [s], lp, ln, start, cur, |c0|)
  {
    assert forall i :: 0 <= i < |c0| ==> (c0 + [s])[i] == c0[i];
    forall last, kind | Recorded(t, c0, last, kind, start, cur, NIL)
      ensures Recorded(t, c0 + [s], last, kind, start, cur, |c0|)
    {
      forall q | start <= q <= cur && Is(t, kind, t.After(start, q)) && q > last
        ensures exists i :: 0 <= i < |c0 + [s]| && i != |c0| && Flagged((c0 + [s])[i], kind) && q <= (c0 + [s])[i].lastseen
      {
        var i :| 0 <= i < |c0| && i != NIL && Flagged(c0[i], kind) && q <= c0[i].lastseen;
        assert Flagged((c0 + [s])[i], kind) && q <= (c0 + [s])[i].lastseen;
      }
    }
  }

  /** Only the entry left out of the tracking may change. */
  lemma TracksFill(t: Target, c: seq<SSet>, lp: int, ln: int, start: nat, cur: int, r: nat, s: SSet)
    requires t.Valid() && cur <= |t.text| && 0 < r < |c|
    requires Tracks(t, c, lp, ln, start, cur, r)
    ensures Tracks(t, c[r := s], lp, ln, start, cur, r)
  {
    RecordedSame(t, c, c[r := s], lp, Match, start, cur, r);
    RecordedSame(t, c, c[r := s], ln, Cold, start, cur, r);
  }

  /** How lastpost and lastnopr change when an entry is evicted. */
  ghost function Remember(flag: bool, lastseen: int, last: int): int {
    if flag && lastseen != last && (last == NIL || last < lastseen) then lastseen else last
  }

  /** Remembering the stamp of entry r makes the entry dispensable. */
  lemma EvictRecorded(t: Target, c: seq<SSet>, last: int, kind: Kind, start: nat, cur: int, r: nat)
    requires t.Valid() && cur <= |t.text| && 0 < r < |c|
    requires Recorded(t, c, last, kind, start, cur, NIL)
    requires StampOk(t, c[r], r, start, cur) && EntryOk(t, c[r])
    ensures Recorded(t, c, Remember(Flagged(c[r], kind), c[r].lastseen, last), kind, start, cur, r)
  {
    var last' := Remember(Flagged(c[r], kind), c[r].lastseen, last);
    forall q | start <= q <= cur && Is(t, kind, t.After(start, q)) && q > last'
      ensures exists i :: 0 <= i < |c| && i != r && Flagged(c[i], kind) && q <= c[i].lastseen
    {
      var i :| 0 <= i < |c| && i != NIL && Flagged(c[i], kind) && q <= c[i].lastseen;
      assert i != r;
    }
  }

  lemma EvictTracks(t: Target, c: seq<SSet>, lp: int, ln: int, start: nat, cur: int, r: nat)
    requires t.Valid() && cur <= |t.text| && 0 < r < |c|
    requires Tracks(t, c, lp, ln, start, cur, NIL) && EntryOk(t, c[r])
    ensures Tracks(t, c, Remember(c[r].poststate, c[r].lastseen, lp), Remember(c[r].noprogress, c[r].lastseen, ln), start, cur, r)
  {
    EvictRecorded(t, c, lp, Match, start, cur, r);
    EvictRecorded(t, c, ln, Cold, start, cur, r);
  }

  /** Stamping the entry the run just entered. */
  lemma StampRecorded(t: Target, c: seq<SSet>, last: int, kind: Kind, start: nat, cur: int, but: int, r: nat)
    requires t.Valid() && start - 1 <= cur < |t.text| && r < |c| && (but == NIL || but == r)
    requires Recorded(t, c, last, kind, start, cur, but)
    requires EntryOk(t, c[r]) && c[r].states == t.After(start, cur + 1)
    requires r != but ==> c[r].lastseen <= cur + 1
    ensures Recorded(t, c[r := c[r].(lastseen := cur + 1)], last, kind, start, cur + 1, NIL)
  {
    var c' := c[r := c[r].(lastseen := cur + 1)];
    forall q | start <= q <= cur + 1 && Is(t, kind, t.After(start, q)) && q > last
      ensures exists i :: 0 <= i < |c'| && i != NIL && Flagged(c'[i], kind) && q <= c'[i].lastseen
    {
      if q == cur + 1 {
        assert Flagged(c'[r], kind) && q <= c'[r].lastseen;
      } else {
        var i :| 0 <= i < |c| && i != but && Flagged(c[i], kind) && q <= c[i].lastseen;
        assert Flagged(c'[i], kind) && q <= c'[i].lastseen;
      }
    }
  }

  lemma StampTracks(t: Target, c: seq<SSet>, lp: int, ln: int, start: nat, cur: int, but: int, r: nat)
    requires t.Valid() && start - 1 <= cur < |t.text| && r < |c| && (but == NIL || but == r)
    requires Tracks(t, c, lp, ln, start, cur, but)
    requires CacheOk(t, c, NIL) && c[r].states == t.After(start, cur + 1)
    ensures Tracks(t, c[r := c[r].(lastseen := cur + 1)], lp, ln, start, cur + 1, NIL)
  {
    StampRecorded(t, c, lp, Match, start, cur, but, r);
    StampRecorded(t, c, ln, Cold, start, cur, but, r);
  }

  // ---------------------------------------------------------------- the victim

  /** Distinct numbers between lo and hi are at most hi - lo + 1. */
  lemma {:induction false} Pigeonhole(s: seq<int>, lo: int, hi: int)
    requires Distinct(s) && lo <= hi + 1 && forall k :: 0 <= k < |s| ==> lo <= s[k] <= hi
    ensures |s| <= hi - lo + 1
    decreases hi - lo + 1
  {
    if s == [] {
    } else if s[0] <= hi && hi in s {
      var k :| 0 <= k < |s| && s[k] == hi;
      var r := s[..k] + s[k + 1..];
      assert forall j :: 0 <= j < |r| ==> r[j] == s[if j < k then j else j + 1];
      Pigeonhole(r, lo, hi - 1);
    } else {
      Pigeonhole(s, lo, hi - 1);
    }
  }

  /** The oldest stamp that protects an entry from replacement. */
  ghost function Ancient(nssets: nat, cp: nat, start: nat): (a: int) {
    if cp - start > nssets * 2 / 3 then cp - nssets * 2 / 3 else start
  }

  ghost predicate Expendable(s: SSet, ancient: int) {
    (s.lastseen == NIL || s.lastseen < ancient) && !s.locked
  }

  /** Apart from the starter's set, the runs over the string reach at most n state sets. */
  ghost predicate FewSets(t: Target, n: int)
    requires t.Valid()
  {
    exists F: set<set<nat>> :: |F| <= n && Covers(t, F)
  }

  ghost predicate Covers(t: Target, F: set<set<nat>>)
    requires t.Valid()
  {
    forall start: nat, i: nat {:trigger t.After(start, i)} :: start <= i <= |t.text| ==> t.After(start, i) in F + {{}, {t.cnfa.pre}}
  }

  /** A cache of this size never runs out of entries to reuse. */
  ghost predicate Roomy(t: Target, nssets: nat)
    requires t.Valid()
  {
    nssets >= 7 || FewSets(t, nssets - 2)
  }

  /** A full cache with enough room always has an expendable entry. With seven entries or more, the
      locked starter and one entry per position in the protected window do not fill it. */
  lemma VictimExists(t: Target, c: seq<SSet>, lp: int, ln: int, start: nat, cur: int, cp: nat)
    requires t.Valid() && cur <= |t.text| && start <= cp && cur <= cp
    requires CacheOk(t, c, NIL) && Tracks(t, c, lp, ln, start, cur, NIL)
    requires Roomy(t, |c|)
    ensures exists i :: 0 <= i < |c| && Expendable(c[i], Ancient(|c|, cp, start))
  {
    var ancient := Ancient(|c|, cp, start);
    if forall i :: 0 <= i < |c| ==> !Expendable(c[i], ancient) {
      if |c| >= 7 {
        NoRoomForAll(t, c, lp, ln, start, cur, cp);
      } else {
        NotSoManySets(t, c, lp, ln, start, cur, cp);
      }
    }
  }

  lemma NoRoomForAll(t: Target, c: seq<SSet>, lp: int, ln: int, start: nat, cur: int, cp: nat)
    requires t.Valid() && cur <= |t.text| && start <= cp && cur <= cp
    requires CacheOk(t, c, NIL) && Tracks(t, c, lp, ln, start, cur, NIL)
    requires forall i :: 0 <= i < |c| ==> !Expendable(c[i], Ancient(|c|, cp, start))
    ensures |c| < 7
  {
    var ancient := Ancient(|c|, cp, start);
    var stamps := seq(|c| - 1, i requires 0 <= i < |c| - 1 => c[i + 1].lastseen);
    forall k | 0 <= k < |stamps| ensures ancient <= stamps[k] <= cp && stamps[k] != NIL {
      assert !Expendable(c[k + 1], ancient) && StampOk(t, c[k + 1], k + 1, start, cur);
    }
    forall k, j | 0 <= k < j < |stamps| ensures stamps[k] != stamps[j] {
      assert StampOk(t, c[k + 1], k + 1, start, cur) && StampOk(t, c[j + 1], j + 1, start, cur);
      assert c[k + 1].states != c[j + 1].states;
    }
    Pigeonhole(stamps, ancient, cp);
  }

  lemma NotSoManySets(t: Target, c: seq<SSet>, lp: int, ln: int, start: nat, cur: int, cp: nat)
    requires t.Valid() && cur <= |t.text| && start <= cp && cur <= cp
    requires CacheOk(t, c, NIL) && Tracks(t, c, lp, ln, start, cur, NIL)
    requires forall i :: 0 <= i < |c| ==> !Expendable(c[i], Ancient(|c|, cp, start))
    ensures !FewSets(t, |c| - 2)
  {
    hide Target.After, EntryOk, StampOk, Agrees, Recorded, Shaped;
    forall F | Covers(t, F) ensures |F| >= |c| - 1 {
      var sets := seq(|c| - 1, i requires 0 <= i < |c| - 1 => c[i + 1].states);
      forall k | 0 <= k < |sets| ensures sets[k] in F {
        Visited(t, c, lp, ln, start, cur, k + 1);
      }
      DistinctMembers(sets, F);
    }
  }

  /** A stamped entry holds a set that the run has visited. */
  lemma Visited(t: Target, c: seq<SSet>, lp: int, ln: int, start: nat, cur: int, i: nat)
    requires t.Valid() && cur <= |t.text| && 0 < i < |c| && c[i].lastseen != NIL
    requires CacheOk(t, c, NIL) && Tracks(t, c, lp, ln, start, cur, NIL)
    ensures start <= c[i].lastseen <= |t.text| && c[i].states == t.After(start, c[i].lastseen)
    ensures c[i].states != {} && c[i].states != {t.cnfa.pre}
  {
    hide Target.After, Agrees, Recorded, Shaped;
    assert StampOk(t, c[i], i, start, cur) && EntryOk(t, c[i]) && c[0].states != c[i].states;
  }

  lemma {:induction false} DistinctMembers(s: seq<set<nat>>, F: set<set<nat>>)
    requires (forall j, k :: 0 <= j < k < |s| ==> s[j] != s[k]) && forall k :: 0 <= k < |s| ==> s[k] in F
    ensures |s| <= |F|
  {
    if s != [] {
      DistinctMembers(s[1..], F - {s[0]});
    }
  }

  // ---------------------------------------------------------------- reading the stamps

  /** m is the latest of first and the stamps of the flagged entries. */
  ghost predicate Latest(c: seq<SSet>, kind: Kind, first: int, m: int) {
    && first <= m
    && (forall i :: 0 <= i < |c| && Flagged(c[i], kind) ==> c[i].lastseen <= m)
    && (m == first || exists i :: 0 <= i < |c| && Flagged(c[i], kind) && c[i].lastseen == m)
  }

  /** The latest match stamp is the last position where the run had a match; a vacant entry does no harm
      as long as it is not a match. */
  lemma LatestMatch(t: Target, c: seq<SSet>, lp: int, ln: int, start: nat, cur: nat, but: int, m: int)
    requires t.Valid() && start <= cur <= |t.text| && CacheOk(t, c, NIL) && Tracks(t, c, lp, ln, start, cur, but)
    requires but == NIL || (0 <= but < |c| && !c[but].poststate)
    requires Latest(c, Match, lp, m)
    ensures m == NIL || (start <= m <= cur && t.cnfa.post in t.After(start, m))
    ensures forall q :: start <= q <= cur && t.cnfa.post in t.After(start, q) ==> q <= m
  {
    if m != lp {
      var i :| 0 <= i < |c| && Flagged(c[i], Match) && c[i].lastseen == m;
      assert StampOk(t, c[i], i, start, cur) && EntryOk(t, c[i]);
    }
    assert Recorded(t, c, lp, Match, start, cur, but);
    forall q | start <= q <= cur && t.cnfa.post in t.After(start, q) ensures q <= m {
      assert Is(t, Match, t.After(start, q));
    }
  }

  /** Match stamps are positions or NIL, whatever a vacant entry that is no match holds. */
  lemma MatchStampsAreStamps(t: Target, c: seq<SSet>, lp: int, ln: int, start: nat, cur: nat, but: int)
    requires t.Valid() && start <= cur <= |t.text| && Tracks(t, c, lp, ln, start, cur, but)
    requires but == NIL || (0 <= but < |c| && !c[but].poststate)
    ensures lp >= NIL && forall i :: 0 <= i < |c| && c[i].poststate ==> c[i].lastseen >= NIL
  {
    forall i | 0 <= i < |c| && c[i].poststate ensures c[i].lastseen >= NIL {
      assert StampOk(t, c[i], i, start, cur);
    }
  }

  lemma FlagOfEntry(t: Target, c: seq<SSet>, i: nat)
    requires t.Valid() && CacheOk(t, c, NIL) && i < |c|
    ensures c[i].poststate == (t.cnfa.post in c[i].states)
  {
    assert EntryOk(t, c[i]);
  }

  /** Stamping an entry that is not flagged does not matter. */
  lemma LatestTidy(c: seq<SSet>, kind: Kind, first: int, m: int, r: nat, pos: int)
    requires r < |c| && !Flagged(c[r], kind) && Latest(c[r := c[r].(lastseen := pos)], kind, first, m)
    ensures Latest(c, kind, first, m)
  {
    var c' := c[r := c[r].(lastseen := pos)];
    forall i | 0 <= i < |c| && Flagged(c[i], kind) ensures c[i].lastseen <= m {
      assert Flagged(c'[i], kind);
    }
    if m != first {
      var i :| 0 <= i < |c'| && Flagged(c'[i], kind) && c'[i].lastseen == m;
      assert Flagged(c[i], kind) && c[i].lastseen == m;
    }
  }

  /** The latest no-progress stamp is the last position where the run had made no progress. */
  lemma LatestCold(t: Target, c: seq<SSet>, lp: int, ln: int, start: nat, cur: nat, m: int)
    requires t.Valid() && start <= cur <= |t.text| && CacheOk(t, c, NIL) && Tracks(t, c, lp, ln, start, cur, NIL)
    requires Latest(c, Cold, if ln == NIL then 0 else ln, m)
    ensures start <= m <= cur && (m == start || t.NoProgressSet(t.After(start, m)))
    ensures forall q :: m < q <= cur ==> !t.NoProgressSet(t.After(start, q))
  {
    assert EntryOk(t, c[0]) && Flagged(c[0], Cold);
    assert Recorded(t, c, ln, Cold, start, cur, NIL);
    if m > start && m != ln {
      var i :| 0 <= i < |c| && Flagged(c[i], Cold) && c[i].lastseen == m;
      assert StampOk(t, c[i], i, start, cur) && EntryOk(t, c[i]);
    }
    forall q | m < q <= cur ensures !t.NoProgressSet(t.After(start, q)) {
      assert !Is(t, Cold, t.After(start, q));
    }
  }

  /** Wiping all stamps and stamping the starter begins a new run. */
  lemma TracksStart(t: Target, c: seq<SSet>, start: nat)
    requires t.Valid() && start <= |t.text| && |c| > 0
    requires forall i :: 0 <= i < |c| ==> c[i].lastseen == if i == 0 then start else NIL
    ensures Tracks(t, c, NIL, NIL, start, start - 1, NIL)
  {
  }

  /** Stamps play no part in what a cache says about the NFA. */
  lemma CacheStamp(t: Target, c0: seq<SSet>, c: seq<SSet>, chains: seq<seq<Arcp>>)
    requires t.Valid() && CacheOk(t, c0, NIL) && ChainsOk(c0, t.cnfa.ncolors, chains)
    requires |c| == |c0| && forall i :: 0 <= i < |c| ==> c[i] == c0[i].(lastseen := c[i].lastseen)
    ensures CacheOk(t, c, NIL) && ChainsOk(c, t.cnfa.ncolors, chains)
  {
    ChainsSame(c0, c, t.cnfa.ncolors, chains);
  }
}
