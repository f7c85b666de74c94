/**
 * The colour map's table: one description for each colour, with free ones
 * chained through their subcolour fields, and what open subcolours mean.
 */
module ColorTable {
  import opened ColorTree

  const NOSUB: int := -1
  const NOBLOCK: int := -1
  const COLORLESS: int := -1
  const MAX_COLOR: nat := 32767

  datatype Desc = Desc(nchrs: nat, sub: int, freed: bool, pseudo: bool, block: int)

  /** A colour that may have characters or be a pseudocolour. */
  predicate InUse(cd: seq<Desc>, max: nat, co: int) {
    0 <= co <= max < |cd| && !cd[co].freed
  }

  predicate Real(cd: seq<Desc>, max: nat, co: int) {
    InUse(cd, max, co) && !cd[co].pseudo
  }

  // ---------------------------------------------------------------- the chain of free colours

  /** The free chain that starts at head runs through the colours listed and ends at 0. */
  ghost predicate Linked(cd: seq<Desc>, head: int, chain: seq<nat>)
    decreases |chain|
  {
    if chain == [] then head == 0
    else head == chain[0] && 0 < chain[0] < |cd| && Linked(cd, cd[chain[0]].sub, chain[1..])
  }

  ghost predicate Distinct(chain: seq<nat>) {
    forall i, j :: 0 <= i < j < |chain| ==> chain[i] != chain[j]
  }

  /** The highest colour is in use, white always is, and the chain has exactly the free colours below the highest. */
  ghost predicate ChainOk(cd: seq<Desc>, max: nat, free: int, chain: seq<nat>) {
    && max < |cd| <= MAX_COLOR + 1 && InUse(cd, max, max) && Real(cd, max, WHITE)
    && Linked(cd, free, chain) && Distinct(chain)
    && forall co: nat :: co in chain <==> co <= max && cd[co].freed
  }

  lemma {:induction false} LinkedKept(cd: seq<Desc>, ce: seq<Desc>, head: int, chain: seq<nat>)
    requires Linked(cd, head, chain) && |cd| <= |ce|
    requires forall co :: co in chain && co < |cd| ==> ce[co].sub == cd[co].sub
    ensures Linked(ce, head, chain)
    decreases |chain|
  {
    if chain != [] {
      LinkedKept(cd, ce, cd[chain[0]].sub, chain[1..]);
    }
  }

  /** Cutting the second of two neighbours out of a chain. */
  lemma {:induction false} Unlinked(cd: seq<Desc>, head: int, kept: seq<nat>, out: nat, rest: seq<nat>)
    requires Linked(cd, head, kept + [out] + rest) && kept != [] && Distinct(kept + [out] + rest)
    requires forall i :: 0 <= i < |kept| ==> kept[i] < |cd|
    requires out < |cd|
    ensures var p := kept[|kept| - 1];
            Linked(cd[p := cd[p].(sub := cd[out].sub)], head, kept + rest)
    decreases |kept|
  {
    var p := kept[|kept| - 1];
    var ce := cd[p := cd[p].(sub := cd[out].sub)];
    var all := kept + [out] + rest;
    if |kept| == 1 {
      assert all[1..] == [out] + rest && ([out] + rest)[1..] == rest;
      assert (kept + rest)[1..] == rest;
      assert Linked(cd, cd[out].sub, rest);
      forall co | co in rest ensures co != p {
        var i :| 0 <= i < |rest| && rest[i] == co;
        assert all[2 + i] == co && all[0] == p;
      }
      LinkedKept(cd, ce, cd[out].sub, rest);
    } else {
      assert all[1..] == kept[1..] + [out] + rest;
      assert Distinct(all[1..]);
      assert (kept + rest)[1..] == kept[1..] + rest;
      assert all[0] != all[|kept| - 1];
      Unlinked(cd, cd[kept[0]].sub, kept[1..], out, rest);
    }
  }

  lemma {:induction false} LinkedMembers(cd: seq<Desc>, head: int, chain: seq<nat>, co: nat)
    requires Linked(cd, head, chain) && co in chain
    ensures 0 < co < |cd|
    decreases |chain|
  {
    if co != chain[0] {
      LinkedMembers(cd, cd[chain[0]].sub, chain[1..], co);
    }
  }

  /** The link from the last colour kept to the first of the rest. */
  lemma {:induction false} NextLink(cd: seq<Desc>, head: int, kept: seq<nat>, rest: seq<nat>)
    requires Linked(cd, head, kept + rest) && kept != []
    ensures kept[|kept| - 1] < |cd|
    ensures cd[kept[|kept| - 1]].sub == if rest == [] then 0 else rest[0]
    ensures rest != [] ==> 0 < rest[0] < |cd|
    decreases |kept|
  {
    assert (kept + rest)[1..] == kept[1..] + rest;
    if |kept| == 1 {
      assert kept[1..] + rest == rest;
    } else {
      NextLink(cd, cd[kept[0]].sub, kept[1..], rest);
    }
  }

  lemma ChainHead(cd: seq<Desc>, head: int, chain: seq<nat>)
    requires Linked(cd, head, chain) && Distinct(chain)
    ensures head >= 0 && (head == 0 <==> chain == [])
    ensures chain != [] ==> head == chain[0] < |cd| && Linked(cd, cd[head].sub, chain[1..]) && Distinct(chain[1..])
    ensures chain != [] ==> forall co :: co in chain <==> co == chain[0] || co in chain[1..]
  {
    if chain != [] {
      assert chain == [chain[0]] + chain[1..];
    }
  }

  /** Where the kept part of a chain meets the rest. */
  lemma ChainTail(cd: seq<Desc>, head: int, kept: seq<nat>, rest: seq<nat>)
    requires Linked(cd, head, kept + rest) && kept != []
    ensures kept[|kept| - 1] < |cd| && cd[kept[|kept| - 1]].sub == if rest == [] then 0 else rest[0]
    ensures rest != [] ==> 0 < rest[0] < |cd|
  {
    NextLink(cd, head, kept, rest);
  }

  /** Cutting out the first colour of the rest. */
  lemma ChainCut(cd: seq<Desc>, head: int, kept: seq<nat>, rest: seq<nat>)
    requires Linked(cd, head, kept + rest) && Distinct(kept + rest) && kept != [] && rest != []
    requires kept[|kept| - 1] < |cd| && rest[0] < |cd|
    ensures Linked(cd[kept[|kept| - 1] := cd[kept[|kept| - 1]].(sub := cd[rest[0]].sub)], head, kept + rest[1..])
    ensures Distinct(kept + rest[1..])
  {
    assert kept + rest == kept + [rest[0]] + rest[1..];
    forall i | 0 <= i < |kept| ensures kept[i] < |cd| {
      assert (kept + rest)[i] == kept[i];
      LinkedMembers(cd, head, kept + rest, kept[i]);
    }
    Unlinked(cd, head, kept, rest[0], rest[1..]);
    forall i, j | 0 <= i < j < |kept + rest[1..]| ensures (kept + rest[1..])[i] != (kept + rest[1..])[j] {
      var x, y := if i < |kept| then i else i + 1, if j < |kept| then j else j + 1;
      assert (kept + rest)[x] != (kept + rest)[y];
    }
  }

  // ---------------------------------------------------------------- subcolours

  /** The colour that a character of colour co is given when it is taken out: the open subcolour, if there is one. */
  ghost function Target(cd: seq<Desc>, co: nat): nat
    requires co < |cd| && cd[co].sub >= NOSUB
  {
    if cd[co].sub == NOSUB then co else cd[co].sub
  }

  ghost predicate SubOk(cd: seq<Desc>, max: nat, full: set<nat>, co: nat)
    requires InUse(cd, max, co)
  {
    var sub := cd[co].sub;
    if co in full then
      sub == NOSUB || (Real(cd, max, co) && Real(cd, max, sub) && sub !in full && cd[sub].sub == sub)
    else
      sub == co && Real(cd, max, co) && exists p :: IsParent(cd, full, p, co)
  }

  ghost predicate IsParent(cd: seq<Desc>, full: set<nat>, p: nat, sub: nat) {
    p in full && p < |cd| && cd[p].sub == sub
  }

  /**
   * The colours in use are the full ones and their open subcolours, which
   * point to themselves; no two full colours share a subcolour.
   */
  ghost predicate SubsOk(cd: seq<Desc>, max: nat, full: set<nat>) {
    && WHITE in full
    && (forall co :: co in full ==> InUse(cd, max, co))
    && (forall co: nat :: InUse(cd, max, co) ==> SubOk(cd, max, full, co))
    && (forall p, q :: p in full && q in full && p != q && cd[p].sub == cd[q].sub ==> cd[p].sub == NOSUB)
  }

  /** A colour that was not in use became the open subcolour of co, and nothing else changed. */
  ghost predicate OnlyOpened(cd: seq<Desc>, max: nat, co: nat, ce: seq<Desc>, top: nat, sub: nat) {
    && co < |cd| && co < |ce| && !InUse(cd, max, sub) && InUse(ce, top, sub)
    && ce[sub] == Desc(0, sub, false, false, NOBLOCK) && ce[co] == cd[co].(sub := sub)
    && (forall k: nat :: k != sub ==> InUse(ce, top, k) == InUse(cd, max, k))
    && (forall k: nat :: k != sub && k != co && k < |ce| && InUse(cd, max, k) ==> ce[k] == cd[k])
  }

  /** Giving a full colour an open subcolour, a colour that was not in use, keeps the subcolours in order. */
  lemma OpenedSub(cd: seq<Desc>, max: nat, full: set<nat>, co: nat, ce: seq<Desc>, top: nat, sub: nat)
    requires SubsOk(cd, max, full) && co in full && Real(cd, max, co) && cd[co].sub == NOSUB
    requires OnlyOpened(cd, max, co, ce, top, sub)
    ensures SubsOk(ce, top, full)
  {
    forall k: nat | InUse(ce, top, k) ensures SubOk(ce, top, full, k) {
      if k == sub {
        assert IsParent(ce, full, co, k);
      } else if k != co {
        assert SubOk(cd, max, full, k);
        if k !in full {
          var p :| IsParent(cd, full, p, k);
          assert p != co;
          assert IsParent(ce, full, p, k);
        }
      }
    }
    forall p, q | p in full && q in full && p != q && ce[p].sub == ce[q].sub ensures ce[p].sub == NOSUB {
      assert SubOk(cd, max, full, p) && SubOk(cd, max, full, q);
    }
  }
}
