/** Lists of arcs in order, and merging two of them. */
module SortedArcs {
  import opened NfaGraph

  /** The arc types as characters, which is how they are compared. */
  function TypeNo(ty: ArcType): nat {
    match ty
    case EOL => 36
    case LACON => 76
    case BOL => 94
    case AHEAD => 97
    case EMPTY => 110
    case PLAIN => 112
    case BEHIND => 114
  }

  /** Inarcs are compared by source, outarcs by target; then by colour and type. */
  function Compare(a: Arc, b: Arc, ins: bool): (c: int)
    ensures c == 0 <==> Far(a, ins) == Far(b, ins) && a.co == b.co && a.ty == b.ty
    ensures c == -1 || c == 0 || c == 1
  {
    if Far(a, ins) < Far(b, ins) then -1
    else if Far(a, ins) > Far(b, ins) then 1
    else if a.co < b.co then -1
    else if a.co > b.co then 1
    else if TypeNo(a.ty) < TypeNo(b.ty) then -1
    else if TypeNo(a.ty) > TypeNo(b.ty) then 1
    else 0
  }

  lemma CompareTrans(a: Arc, b: Arc, c: Arc, ins: bool)
    requires Compare(a, b, ins) <= 0 && Compare(b, c, ins) <= 0
    ensures Compare(a, c, ins) <= 0 && (Compare(a, b, ins) < 0 || Compare(b, c, ins) < 0 ==> Compare(a, c, ins) < 0)
  {
  }

  lemma CompareBack(a: Arc, b: Arc, ins: bool)
    ensures Compare(a, b, ins) == -Compare(b, a, ins)
  {
  }

  ghost predicate Ordered(s: seq<Arc>, ins: bool) {
    forall i, j :: 0 <= i < j < |s| ==> Compare(s[i], s[j], ins) <= 0
  }

  ghost predicate StrictlyOrdered(s: seq<Arc>, ins: bool) {
    forall i, j :: 0 <= i < j < |s| ==> Compare(s[i], s[j], ins) < 0
  }

  ghost predicate Different(s: seq<Arc>) {
    forall i, j :: 0 <= i < j < |s| ==> s[i] != s[j]
  }

  /** Puts one more arc in its place. */
  method InsertSorted(s: seq<Arc>, a: Arc, ins: bool) returns (r: seq<Arc>)
    requires Ordered(s, ins)
    ensures Ordered(r, ins) && |r| == |s| + 1 && (forall b :: b in r <==> b in s || b == a)
    ensures Different(s) && a !in s ==> Different(r)
  {
    hide Compare;
    var k := 0;
    while k < |s| && Compare(s[k], a, ins) <= 0
      invariant k <= |s| && forall i :: 0 <= i < k ==> Compare(s[i], a, ins) <= 0
    {
      k := k + 1;
    }
    forall j | k <= j < |s| ensures Compare(a, s[j], ins) <= 0 {
      CompareBack(a, s[k], ins);
      if k < j { CompareTrans(a, s[k], s[j], ins); }
    }
    r := s[..k] + [a] + s[k..];
    InsertedOrdered(s, a, k, ins);
  }

  lemma InsertedOrdered(s: seq<Arc>, a: Arc, k: nat, ins: bool)
    requires k <= |s| && Ordered(s, ins)
    requires (forall i :: 0 <= i < k ==> Compare(s[i], a, ins) <= 0) && forall j :: k <= j < |s| ==> Compare(a, s[j], ins) <= 0
    ensures var r := s[..k] + [a] + s[k..];
            && Ordered(r, ins) && (forall b :: b in r <==> b in s || b == a)
            && (Different(s) && a !in s ==> Different(r))
  {
    hide Compare;
    var r := s[..k] + [a] + s[k..];
    assert forall i :: 0 <= i < |r| ==> r[i] == if i < k then s[i] else if i == k then a else s[i - 1];
    InsertedMembers(s, a, k);
  }

  lemma InsertedMembers(s: seq<Arc>, a: Arc, k: nat)
    requires k <= |s|
    ensures forall b :: b in s[..k] + [a] + s[k..] <==> b in s || b == a
  {
    assert s == s[..k] + s[k..];
  }

  /** Sorts an array of arcs in place. */
  method SortArray(a: array<Arc>, ins: bool)
    modifies a
    ensures Ordered(a[..], ins) && forall x :: x in a[..] <==> x in old(a[..])
  {
    hide Compare, Ordered;
    var s: seq<Arc> := [];
    NothingOrdered(ins);
    var i := 0;
    while i < a.Length
      invariant i <= a.Length && |s| == i && Ordered(s, ins) && a[..] == old(a[..])
      invariant forall x :: x in s <==> x in a[..i]
    {
      s := InsertSorted(s, a[i], ins);
      assert a[..i + 1] == a[..i] + [a[i]];
      i := i + 1;
    }
    assert a[..i] == a[..];
    forall k | 0 <= k < a.Length {
      a[k] := s[k];
    }
    assert a[..] == s;
  }

  lemma NothingOrdered(ins: bool)
    ensures Ordered([], ins)
  {
  }

  /** The arcs at one side of one state differ in what is compared. */
  lemma OneSideStrict(s: seq<Arc>, ins: bool, x: nat)
    requires Ordered(s, ins) && Different(s) && forall a :: a in s ==> Far(a, !ins) == x
    ensures StrictlyOrdered(s, ins)
  {
    forall i, j | 0 <= i < j < |s| ensures Compare(s[i], s[j], ins) < 0 {
      assert s[i] in s && s[j] in s && s[i] != s[j];
    }
  }

  // ---------------------------------------------------------------- merging sorted lists

  /** The lists have been compared up to positions i and j: what is left of oa comes after all of na before j. */
  ghost predicate Merging(oa: seq<Arc>, na: seq<Arc>, i: nat, j: nat, ins: bool) {
    && i <= |oa| && j <= |na|
    && forall k, l :: i <= k < |oa| && 0 <= l < j ==> Compare(na[l], oa[k], ins) < 0
  }

  lemma MergeNext(oa: seq<Arc>, na: seq<Arc>, i: nat, j: nat, ins: bool)
    requires Merging(oa, na, i, j, ins) && i < |oa| && j < |na| && StrictlyOrdered(oa, ins)
    ensures Compare(oa[i], na[j], ins) <= 0 ==> Merging(oa, na, i + 1, j, ins)
    ensures Compare(oa[i], na[j], ins) == 0 ==> Merging(oa, na, i + 1, j + 1, ins)
    ensures Compare(oa[i], na[j], ins) > 0 ==> Merging(oa, na, i, j + 1, ins)
  {
    hide Compare;
    CompareBack(oa[i], na[j], ins);
    if Compare(oa[i], na[j], ins) >= 0 {
      forall k | i < k < |oa| ensures Compare(na[j], oa[k], ins) < 0 {
        CompareTrans(na[j], oa[i], oa[k], ins);
      }
    }
  }

  /** An arc that comes before the rest of na has no counterpart in na. */
  lemma NoCounterpart(oa: seq<Arc>, na: seq<Arc>, i: nat, j: nat, ins: bool)
    requires Merging(oa, na, i, j, ins) && i < |oa| && StrictlyOrdered(na, ins)
    requires j < |na| ==> Compare(oa[i], na[j], ins) < 0
    ensures forall l :: 0 <= l < |na| ==> Compare(oa[i], na[l], ins) != 0
  {
    hide Compare;
    forall l | 0 <= l < |na| ensures Compare(oa[i], na[l], ins) != 0 {
      CompareBack(oa[i], na[l], ins);
      if l > j {
        CompareTrans(oa[i], na[j], na[l], ins);
      }
    }
  }

  lemma FirstNext(s: seq<Arc>, i: nat, x: nat, ins: bool)
    requires i < |s|
    ensures First(s, i + 1) == First(s, i) + {s[i]}
    ensures HangAll(First(s, i + 1), x, ins) == HangAll(First(s, i), x, ins) + {Hang(s[i], x, ins)}
  {
  }

  lemma HangNone(s: seq<Arc>, x: nat, ins: bool)
    ensures First(s, 0) == {} && HangAll(First(s, 0), x, ins) == {}
  {
  }

  /** The next arc is not at newState yet, and no earlier one has become the same. */
  lemma NotHungYet(A: set<Arc>, oa: seq<Arc>, na: seq<Arc>, i: nat, newState: nat, ins: bool)
    requires i < |oa| && StrictlyOrdered(oa, ins) && (forall a :: a in na <==> a in Side(A, newState, ins))
    requires forall l :: 0 <= l < |na| ==> Compare(oa[i], na[l], ins) != 0
    ensures Hang(oa[i], newState, ins) !in A
    ensures Hang(oa[i], newState, ins) !in HangAll(First(oa, i), newState, ins)
  {
    var b := Hang(oa[i], newState, ins);
    assert b in A ==> b in Side(A, newState, ins);
    assert Compare(oa[i], b, ins) == 0;
    forall a | a in First(oa, i) ensures Hang(a, newState, ins) != b {
      var k :| 0 <= k < i && oa[k] == a;
      assert Compare(oa[k], oa[i], ins) < 0;
    }
  }

  /** The next arc is not among those before it. */
  lemma NotFirst(oa: seq<Arc>, i: nat, ins: bool)
    requires i < |oa| && StrictlyOrdered(oa, ins)
    ensures oa[i] !in First(oa, i)
  {
    forall k | 0 <= k < i ensures oa[k] != oa[i] {
      assert Compare(oa[k], oa[i], ins) < 0;
    }
  }

  /** What has been hung up at newState is not what hangs at oldState. */
  lemma ElsewhereNow(oa: seq<Arc>, i: nat, oldState: nat, newState: nat, ins: bool)
    requires i < |oa| && oldState != newState && forall a :: a in oa ==> Far(a, !ins) == oldState
    ensures oa[i] !in HangAll(First(oa, i + 1), newState, ins)
  {
    assert oa[i] in oa && Far(oa[i], !ins) == oldState;
  }

  /** The arc with which the next one agrees is what it would become. */
  lemma HungAlready(A: set<Arc>, a: Arc, b: Arc, newState: nat, ins: bool)
    requires b in Side(A, newState, ins) && Compare(a, b, ins) == 0
    ensures Hang(a, newState, ins) == b
  {
  }

  /** Whether to use sort and merge for so many source and destination arcs. */
  predicate BulkArcOpUseSort(nsrcarcs: nat, ndestarcs: nat) {
    nsrcarcs >= 4 && (nsrcarcs > 32 || ndestarcs > 32)
  }

  // ---------------------------------------------------------------- dropping repetitions

  lemma EnterIsHung(B: set<Arc>, s: nat)
    ensures HangAll(B, s, true) == Enter(B, s)
  {
  }

  lemma NoneFirst(s: seq<Arc>, x: nat)
    requires |s| == 0
    ensures Enter(First(s, 0), x) == {}
  {
  }

  lemma SameFirst(s: seq<Arc>, r: seq<Arc>)
    requires forall x :: x in s <==> x in r
    ensures First(s, |s|) == First(r, |r|)
  {
    assert s[..|s|] == s && r[..|r|] == r;
  }

  lemma KeptFacts(s: seq<Arc>, r: seq<Arc>, x: nat)
    requires Kept(s, r)
    ensures StrictlyOrdered(r, true) && (forall a :: a in r ==> a in s) && Enter(First(r, |r|), x) == Enter(First(s, |s|), x)
  {
  }

  lemma CompareSelf(a: Arc)
    ensures Compare(a, a, true) == 0
  {
  }

  /** r is the sorted list s without the repetitions. */
  ghost predicate Kept(s: seq<Arc>, r: seq<Arc>) {
    && StrictlyOrdered(r, true) && (forall a :: a in r ==> a in s)
    && forall x: nat {:trigger Enter(First(r, |r|), x)} :: Enter(First(r, |r|), x) == Enter(First(s, |s|), x)
  }

  lemma OneKept(s: seq<Arc>)
    requires |s| > 0
    ensures Kept(s[..1], s[..1]) && Compare(s[0], s[0], true) == 0
  {
  }

  lemma KeptNext(s: seq<Arc>, i: nat, r: seq<Arc>)
    requires 1 <= i < |s| && Ordered(s, true) && Kept(s[..i], r) && |r| > 0 && Compare(r[|r| - 1], s[i - 1], true) == 0
    ensures Compare(r[|r| - 1], s[i], true) <= 0
    ensures Compare(r[|r| - 1], s[i], true) == 0 ==> Kept(s[..i + 1], r)
    ensures Compare(r[|r| - 1], s[i], true) < 0 ==> Kept(s[..i + 1], r + [s[i]])
  {
    hide Compare, Enter, First;
    assert Compare(s[i - 1], s[i], true) <= 0;
    CompareTrans(r[|r| - 1], s[i - 1], s[i], true);
    KeptEnter(s, i, r);
    PrefixHas(s, i);
    if Compare(r[|r| - 1], s[i], true) < 0 {
      OrderedNext(r, s[i]);
    }
  }

  lemma PrefixHas(s: seq<Arc>, i: nat)
    requires i < |s|
    ensures s[i] in s[..i + 1] && forall a :: a in s[..i] ==> a in s[..i + 1]
  {
    assert s[..i + 1] == s[..i] + [s[i]];
  }

  lemma OrderedNext(r: seq<Arc>, a: Arc)
    requires StrictlyOrdered(r, true) && |r| > 0 && Compare(r[|r| - 1], a, true) < 0
    ensures StrictlyOrdered(r + [a], true)
  {
    hide Compare;
    forall k | 0 <= k < |r| ensures Compare(r[k], a, true) < 0 {
      if k < |r| - 1 { CompareTrans(r[k], r[|r| - 1], a, true); }
    }
  }

  lemma KeptEnter(s: seq<Arc>, i: nat, r: seq<Arc>)
    requires 1 <= i < |s| && Kept(s[..i], r) && |r| > 0
    ensures forall x: nat {:trigger Enter(First(s[..i + 1], i + 1), x)} :: Enter(First(s[..i + 1], i + 1), x) == Enter(First(r, |r|), x) + {s[i].(to := x)}
    ensures forall x: nat :: Enter(First(r + [s[i]], |r| + 1), x) == Enter(First(r, |r|), x) + {s[i].(to := x)}
    ensures Compare(r[|r| - 1], s[i], true) == 0 ==> forall x: nat :: s[i].(to := x) in Enter(First(r, |r|), x)
  {
    assert First(s[..i + 1], i + 1) == First(s[..i], i) + {s[i]} by { assert s[..i + 1] == s[..i] + [s[i]]; }
    assert First(r + [s[i]], |r| + 1) == First(r, |r|) + {s[i]} by { assert (r + [s[i]])[..|r| + 1] == r[..|r|] + [s[i]]; }
    forall x: nat ensures Compare(r[|r| - 1], s[i], true) == 0 ==> s[i].(to := x) in Enter(First(r, |r|), x) {
      assert r[|r| - 1] in First(r, |r|);
    }
  }

  /** Eliminates arcs of the sorted array that agree with the one before; returns how many are left. */
  method DropRepeats(arcarray: array<Arc>) returns (count: nat)
    requires arcarray.Length > 0 && Ordered(arcarray[..], true)
    modifies arcarray
    ensures 0 < count <= arcarray.Length
    ensures Kept(old(arcarray[..]), arcarray[..count])
  {
    hide Compare, Enter, First;
    ghost var a0 := arcarray[..];
    var j := 0;
    var i := 1;
    OneKept(a0);
    while i < arcarray.Length
      invariant 1 <= i <= arcarray.Length && j < i && forall k :: i <= k < arcarray.Length ==> arcarray[k] == a0[k]
      invariant Kept(a0[..i], arcarray[..j + 1]) && Compare(arcarray[j], a0[i - 1], true) == 0
    {
      ghost var r := arcarray[..j + 1];
      assert r[|r| - 1] == arcarray[j];
      KeptNext(a0, i, r);
      var c := Compare(arcarray[j], arcarray[i], true);
      if c < 0 {
        j := j + 1;
        arcarray[j] := arcarray[i];
        assert arcarray[..j + 1] == r + [a0[i]];
        CompareSelf(a0[i]);
      }
      i := i + 1;
      assert Compare(arcarray[j], a0[i - 1], true) == 0;
    }
    count := j + 1;
    assert a0[..i] == a0;
  }
}
