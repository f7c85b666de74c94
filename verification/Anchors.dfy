/** What ^ and $ mean: an expression that begins with ^ reads only at the real beginning of a line or string,
    one that ends with $ only at the real end, and in between they read what they would without the anchor. */
module Anchors {
  import opened NfaGraph
  import opened WordReading
  import opened ReadingBackward

  /** Nothing enters the first state or leaves the last. */
  ghost predicate Ended(g: Ends, A: set<Arc>) {
    g.pre != g.post && forall a :: a in A ==> a.to != g.pre && a.from != g.post
  }

  /** Whatever leaves the first state reads a colour or an end marker and enters init, which only this enters and
      which only ^ arcs of number co leave. */
  ghost predicate StartTested(g: Ends, A: set<Arc>, init: nat, co: nat) {
    && init != g.pre && init != g.post
    && (forall a :: a in A ==> (a.from == g.pre <==> a.to == init))
    && (forall a :: a in A && a.from == g.pre ==> a.ty == PLAIN || a.ty == BOL)
    && (forall a :: a in A && a.from == init ==> a.ty == BOL && a.co == co)
  }

  /** Whatever enters the last state reads a colour or an end marker and leaves final, which only this leaves and
      which only $ arcs of number co enter. */
  ghost predicate EndTested(g: Ends, A: set<Arc>, final: nat, co: nat) {
    && final != g.pre && final != g.post
    && (forall a :: a in A ==> (a.to == g.post <==> a.from == final))
    && (forall a :: a in A && a.to == g.post ==> a.ty == PLAIN || a.ty == EOL)
    && (forall a :: a in A && a.to == final ==> a.ty == EOL && a.co == co)
  }

  /** The arcs with those that leave s made EMPTY. */
  ghost function WithoutStart(A: set<Arc>, s: nat): (B: set<Arc>)
    ensures forall a :: a in A && a.from != s ==> a in B
    ensures forall a :: a in A && a.from == s ==> Arc(EMPTY, a.co, a.from, a.to) in B
    ensures forall b :: b in B && b.from != s ==> b in A
    ensures forall b :: b in B && b.from == s ==> b.ty == EMPTY && exists a :: a in A && a.from == b.from && a.to == b.to && a.co == b.co
  {
    set a | a in A :: if a.from == s then a.(ty := EMPTY) else a
  }

  /** The arcs with those that enter s made EMPTY. */
  ghost function WithoutEnd(A: set<Arc>, s: nat): (B: set<Arc>)
    ensures forall a :: a in A && a.to != s ==> a in B
    ensures forall a :: a in A && a.to == s ==> Arc(EMPTY, a.co, a.from, a.to) in B
    ensures forall b :: b in B && b.to != s ==> b in A
    ensures forall b :: b in B && b.to == s ==> b.ty == EMPTY && exists a :: a in A && a.from == b.from && a.to == b.to && a.co == b.co
  {
    set a | a in A :: if a.to == s then a.(ty := EMPTY) else a
  }

  // ---------------------------------------------------------------- the beginning

  /** A ^ arc that leaves another than the first state tests the colour before: the first marker for number 0,
      and the second for any other. */
  lemma BolTests(r: Reading, a: Arc, i: nat, j: nat)
    requires a.ty == BOL && a.from != r.g.pre
    ensures r.Takes(a, i, j) <==> j == i && 0 < i <= |r.w| && r.w[i - 1] == if a.co == 0 then r.g.bos0 else r.g.bos1
  {
  }

  /** Only words that begin with the marker are read. */
  lemma StartMarked(r: Reading, A: set<Arc>, init: nat, co: nat)
    requires Ended(r.g, A) && StartTested(r.g, A, init, co) && r.Accepts(A)
    ensures |r.w| > 0 && r.w[0] == if co == 0 then r.g.bos0 else r.g.bos1
  {
    hide Reading.Reached;
    var g, w := r.g, r.w;
    var marked := |w| > 0 && w[0] == if co == 0 then g.bos0 else g.bos1;
    var P := iset p: (nat, nat) | marked || (p.0 == g.pre && p.1 == 0) || (p.0 == init && p.1 == 1);
    forall a, i: nat, j: nat | a in A && (a.from, i) in P && r.Takes(a, i, j) ensures (a.to, j) in P {
      if a.from == init {
        BolTests(r, a, i, j);
      }
    }
    IsClosed(r, A, P);
    Least(r, A, P, g.post, |w|);
  }

  /** What begins with ^ reads a word exactly if the word begins with the marker and would be read without the ^. */
  lemma StartMeans(r: Reading, A: set<Arc>, init: nat, co: nat)
    requires Ended(r.g, A) && StartTested(r.g, A, init, co)
    ensures r.Accepts(A) <==>
            |r.w| > 0 && r.w[0] == (if co == 0 then r.g.bos0 else r.g.bos1) && r.Accepts(WithoutStart(A, init))
  {
    if r.Accepts(A) {
      StartMarked(r, A, init, co);
      StartDropped(r, A, init, co);
    }
    if |r.w| > 0 && r.w[0] == (if co == 0 then r.g.bos0 else r.g.bos1) && r.Accepts(WithoutStart(A, init)) {
      StartAdded(r, A, init, co);
    }
  }

  lemma StartDropped(r: Reading, A: set<Arc>, init: nat, co: nat)
    requires StartTested(r.g, A, init, co) && r.Accepts(A)
    ensures r.Accepts(WithoutStart(A, init))
  {
    hide Reading.Reached, WithoutStart;
    var B := WithoutStart(A, init);
    var P := iset p: (nat, nat) | r.Reached(B, p.0, p.1);
    Start(r, B);
    forall a, i: nat, j: nat | a in A && (a.from, i) in P && r.Takes(a, i, j) ensures (a.to, j) in P {
      Forward(r, B, if a.from == init then Arc(EMPTY, a.co, a.from, a.to) else a, i, j);
    }
    IsClosed(r, A, P);
    Least(r, A, P, r.g.post, |r.w|);
  }

  lemma StartAdded(r: Reading, A: set<Arc>, init: nat, co: nat)
    requires Ended(r.g, A) && StartTested(r.g, A, init, co) && r.Accepts(WithoutStart(A, init))
    requires |r.w| > 0 && r.w[0] == if co == 0 then r.g.bos0 else r.g.bos1
    ensures r.Accepts(A)
  {
    hide Reading.Reached, WithoutStart;
    var B := WithoutStart(A, init);
    var P := iset p: (nat, nat) | r.Reached(A, p.0, p.1) && (p.0 == r.g.pre ==> p.1 == 0) && (p.0 == init ==> p.1 == 1);
    Start(r, A);
    forall b, i: nat, j: nat | b in B && (b.from, i) in P && r.Takes(b, i, j) ensures (b.to, j) in P {
      if b.from == init {
        var a :| a in A && a.from == b.from && a.to == b.to && a.co == b.co;
        BolTests(r, a, i, j);
        Forward(r, A, a, i, j);
      } else {
        Forward(r, A, b, i, j);
      }
    }
    IsClosed(r, B, P);
    Least(r, B, P, r.g.post, |r.w|);
  }

  // ---------------------------------------------------------------- the end

  /** Seen from the end, a test at the end is one at the beginning. */
  lemma EndIsStart(g: Ends, A: set<Arc>, final: nat, co: nat)
    requires Ended(g, A) && EndTested(g, A, final, co)
    ensures Ended(FlipEnds(g), Mirrored(A)) && StartTested(FlipEnds(g), Mirrored(A), final, co)
    ensures Mirrored(WithoutEnd(A, final)) == WithoutStart(Mirrored(A), final)
  {
    hide WithoutStart, WithoutEnd, Mirrored;
    EndMirrored(A, final);
    var M := Mirrored(A);
    forall m | m in M
      ensures m.to != g.post && m.from != g.pre && (m.from == g.post <==> m.to == final)
      ensures (m.from == g.post ==> m.ty == PLAIN || m.ty == BOL) && (m.from == final ==> m.ty == BOL && m.co == co)
    {
      assert Mirror(m) in A;
    }
  }

  lemma EndMirrored(A: set<Arc>, final: nat)
    ensures Mirrored(WithoutEnd(A, final)) == WithoutStart(Mirrored(A), final)
  {
    forall m | m in Mirrored(WithoutEnd(A, final)) ensures m in WithoutStart(Mirrored(A), final) {
      var b := Mirror(m);
      assert b in WithoutEnd(A, final) && Mirror(b) == m;
      var a :| a in A && b == if a.to == final then a.(ty := EMPTY) else a;
      assert Mirror(Mirror(a)) == a && Mirror(a) in Mirrored(A);
      assert m == if Mirror(a).from == final then Mirror(a).(ty := EMPTY) else Mirror(a);
    }
    forall m | m in WithoutStart(Mirrored(A), final) ensures m in Mirrored(WithoutEnd(A, final)) {
      var n :| n in Mirrored(A) && m == if n.from == final then n.(ty := EMPTY) else n;
      var a := Mirror(n);
      assert a in A && Mirror(m) == if a.to == final then a.(ty := EMPTY) else a;
      assert Mirror(m) in WithoutEnd(A, final);
    }
  }

  /** What ends with $ reads a word exactly if the word ends with the marker (the first for number 0, the second for
      any other) and would be read without the $. */
  lemma EndMeans(r: Reading, A: set<Arc>, final: nat, co: nat)
    requires Ended(r.g, A) && EndTested(r.g, A, final, co)
    ensures r.Accepts(A) <==>
            |r.w| > 0 && r.w[|r.w| - 1] == (if co == 0 then r.g.eos0 else r.g.eos1) && r.Accepts(WithoutEnd(A, final))
  {
    hide Reading.Reached, Mirrored, WithoutStart, WithoutEnd;
    EndIsStart(r.g, A, final, co);
    StartMeans(Flip(r), Mirrored(A), final, co);
    BothWays(r, A);
    BothWays(r, WithoutEnd(A, final));
    assert |r.w| > 0 ==> Flip(r).w[0] == r.w[|r.w| - 1];
  }

  // ---------------------------------------------------------------- an example

  const CaretEnds: Ends := Ends(0, 1, 5, 6, 7, 8)

  /** The NFA of ^a, where a has colour 3 and so has every other character. */
  const CaretArcs: set<Arc> := {
    Arc(PLAIN, 3, 0, 2), Arc(BOL, 0, 0, 2), Arc(BOL, 1, 0, 2), Arc(BOL, 1, 2, 4), Arc(PLAIN, 3, 4, 5),
    Arc(PLAIN, 3, 5, 1), Arc(EOL, 0, 5, 1), Arc(EOL, 1, 5, 1)
  }

  /** It reads the string a between the markers, unless the beginning is not to match. */
  lemma CaretReads(lacon: (nat, nat) -> bool)
    ensures Reading(CaretEnds, [6, 3, 8], lacon).Accepts(CaretArcs) && Reading(CaretEnds, [6, 3, 7], lacon).Accepts(CaretArcs)
    ensures !Reading(CaretEnds, [5, 3, 8], lacon).Accepts(CaretArcs) && !Reading(CaretEnds, [3, 3, 8], lacon).Accepts(CaretArcs)
  {
    hide Reading.Reached;
    CaretFrom(Reading(CaretEnds, [6, 3, 8], lacon), 1);
    CaretFrom(Reading(CaretEnds, [6, 3, 7], lacon), 0);
    if Reading(CaretEnds, [5, 3, 8], lacon).Accepts(CaretArcs) {
      StartMarked(Reading(CaretEnds, [5, 3, 8], lacon), CaretArcs, 2, 1);
    }
    if Reading(CaretEnds, [3, 3, 8], lacon).Accepts(CaretArcs) {
      StartMarked(Reading(CaretEnds, [3, 3, 8], lacon), CaretArcs, 2, 1);
    }
  }

  lemma CaretFrom(r: Reading, end: nat)
    requires r.g == CaretEnds && r.w == [6, 3, if end == 0 then 7 else 8] && end <= 1
    ensures r.Accepts(CaretArcs)
  {
    hide Reading.Reached;
    Start(r, CaretArcs);
    Forward(r, CaretArcs, Arc(BOL, 1, 0, 2), 0, 1);
    Forward(r, CaretArcs, Arc(BOL, 1, 2, 4), 1, 1);
    Forward(r, CaretArcs, Arc(PLAIN, 3, 4, 5), 1, 2);
    Forward(r, CaretArcs, Arc(EOL, end, 5, 1), 2, 3);
  }
}
