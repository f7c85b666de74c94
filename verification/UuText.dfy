/** Uuencoded text: its alphabet, the bits of a line, and what strict reading lets through. */
module UuText {
  import opened Bytes
  import opened Uuencode

  const LOW: string := "`!\"#$%&'()*+,-./0123456789:;<=>?"
  const HIGH: string := "@ABCDEFGHIJKLMNOPQRSTUVWXYZ[\\]^_"
  const ALPHABET: string := LOW + HIGH

  /** Digits are the characters of the alphabet, in its order. */
  lemma DigitIs(v: nat)
    requires v < 64
    ensures |ALPHABET| == 64 && Digit(v) == ALPHABET[v] as int
  {
    assert |LOW| == |HIGH| == 32;
    if v < 32 {
      assert ALPHABET[v] == LOW[v];
    } else {
      assert ALPHABET[v] == HIGH[v - 32];
    }
  }

  /** The characters that stand for six bits are those of the alphabet and the space, which stands for none, too. */
  lemma UuIs(c: Byte)
    ensures |ALPHABET| == 64 && (IsUu(c) <==> c == ' ' as int || exists v :: 0 <= v < 64 && ALPHABET[v] as int == c)
    ensures forall v :: 0 <= v < 64 && ALPHABET[v] as int == c ==> Value(c) == v
    ensures Value(' ' as int) == 0
  {
    forall v | 0 <= v < 64 && ALPHABET[v] as int == c ensures Value(c) == v && IsUu(c) {
      DigitIs(v);
      ValueOfDigit(v);
    }
    if IsUu(c) && c != 32 {
      DigitIs(Value(c));
    }
  }

  /** A line begins with the number of its bytes, and three bytes are 24 bits of which each character stands for six, the
      highest first; after the last byte there are zeros, and no characters for zeros alone. */
  lemma LineBits(b: seq<Byte>, q: nat, v0: nat, v1: nat, v2: nat, v3: nat)
    requires |b| < 64 && 3 * q < |b| && v0 < 64 && v1 < 64 && v2 < 64 && v3 < 64
    requires v0 * 0x4_0000 + v1 * 0x1000 + v2 * 0x40 + v3 ==
             b[3 * q] as int * 0x1_0000
             + (if 3 * q + 1 < |b| then b[3 * q + 1] as int * 0x100 else 0) + (if 3 * q + 2 < |b| then b[3 * q + 2] as int else 0)
    ensures Line(b)[0] == Digit(|b|)
    ensures var k := 1 + 4 * q;
            && |Line(b)| >= k + 2 && Line(b)[k] == Digit(v0) && Line(b)[k + 1] == Digit(v1)
            && (3 * q + 1 < |b| ==> |Line(b)| >= k + 3 && Line(b)[k + 2] == Digit(v2))
            && (3 * q + 2 < |b| ==> |Line(b)| >= k + 4 && Line(b)[k + 3] == Digit(v3))
            && (3 * q + 1 == |b| ==> |Line(b)| == k + 2) && (3 * q + 2 == |b| ==> |Line(b)| == k + 3)
  {
    hide Digit, SixAt, Sixes, Line;
    GroupValues(b, q, v0, v1, v2, v3);
    LineLength(b, q);
    LineAt(b, 4 * q);
    LineAt(b, 4 * q + 1);
    LineAt(b, 4 * q + 2);
    LineAt(b, 4 * q + 3);
  }

  lemma GroupValues(b: seq<Byte>, q: nat, v0: nat, v1: nat, v2: nat, v3: nat)
    requires 3 * q < |b| && v0 < 64 && v1 < 64 && v2 < 64 && v3 < 64
    requires v0 * 0x4_0000 + v1 * 0x1000 + v2 * 0x40 + v3 ==
             b[3 * q] as int * 0x1_0000
             + (if 3 * q + 1 < |b| then b[3 * q + 1] as int * 0x100 else 0) + (if 3 * q + 2 < |b| then b[3 * q + 2] as int else 0)
    ensures SixAt(b, 4 * q) == v0 && SixAt(b, 4 * q + 1) == v1 && SixAt(b, 4 * q + 2) == v2 && SixAt(b, 4 * q + 3) == v3
  {
    hide SixAt, At;
    AtLine(b, 3 * q);
    BytesAt(b, 3 * q + 1);
    BytesAt(b, 3 * q + 2);
    Sextets(At(b, 3 * q), At(b, 3 * q + 1), At(b, 3 * q + 2), v0, v1, v2, v3);
    SixOfGroup(b, q);
  }

  lemma LineLength(b: seq<Byte>, q: nat)
    requires |b| < 64 && 3 * q < |b|
    ensures |Line(b)| >= 4 * q + 3 && Line(b)[0] == Digit(|b|)
    ensures 3 * q + 1 == |b| ==> |Line(b)| == 4 * q + 3
    ensures 3 * q + 2 == |b| ==> |Line(b)| == 4 * q + 4
    ensures 3 * q + 2 < |b| ==> |Line(b)| >= 4 * q + 5
  {
    hide Digit, Chars, Sixes;
    SixesAre(|b|);
  }

  lemma LineAt(b: seq<Byte>, k: nat)
    requires |b| < 64
    ensures k + 1 < |Line(b)| ==> Line(b)[k + 1] == Digit(SixAt(b, k))
  {
    hide Digit, SixAt, Sixes;
  }

  lemma BytesAt(b: seq<Byte>, i: nat)
    ensures At(b, i) == if i < |b| then b[i] else 0
  {
  }

  /** A line for the word Cat. */
  lemma CatIs()
    ensures Line([67, 97, 116]) == [35, 48, 86, 37, 84]
  {
    var cat: seq<Byte> := [67, 97, 116];
    LineBits(cat, 0, 16, 54, 5, 52);
    SixesAre(3);
  }

  // ---------------------------------------------------------------- strict reading

  ghost predicate Clean(s: seq<Byte>) {
    forall i :: 0 <= i < |s| ==> 32 <= s[i] <= 96 || 9 <= s[i] <= 13
  }

  /** s is clean up to rest. */
  ghost predicate CleanTo(s: seq<Byte>, rest: seq<Byte>) {
    |rest| <= |s| && s[|s| - |rest|..] == rest && Clean(s[..|s| - |rest|])
  }

  lemma CleanMore(s: seq<Byte>, rest: seq<Byte>)
    requires s != [] && (IsUu(s[0]) || IsSpace(s[0])) && CleanTo(s[1..], rest)
    ensures CleanTo(s, rest)
  {
    var n := |s| - |rest|;
    assert s[..n] == [s[0]] + s[1..][..n - 1] && s[n..] == s[1..][n - 1..];
  }

  lemma CleanAlready(s: seq<Byte>)
    ensures CleanTo(s, s)
  {
    assert s[|s| - |s|..] == s;
  }

  /** One character, or the end, strictly and not. */
  lemma OneUu(s: seq<Byte>, d: seq<Byte>, over: Byte, strict: bool)
    requires |d| <= 4
    ensures |d| == 4 ==> ReadFour(s, d, over, strict) == Got(d, s)
    ensures |d| < 4 && s == [] ==> ReadFour(s, d, over, strict) == Got(d + [over] + seq(3 - |d|, _ => 0), [])
    ensures |d| < 4 && s != [] && IsUu(s[0]) ==> ReadFour(s, d, over, strict) == ReadFour(s[1..], d + [s[0]], 0, strict)
    ensures |d| < 4 && s != [] && !IsUu(s[0]) && (!strict || (IsSpace(s[0]) && s[0] != NEWLINE)) ==>
              ReadFour(s, d, over, strict) == ReadFour(s[1..], d, s[0], strict)
    ensures |d| < 4 && s != [] && !IsUu(s[0]) && strict && (!IsSpace(s[0]) || s[0] == NEWLINE) ==> !ReadFour(s, d, over, strict).Got?
  {
    hide IsUu, IsSpace;
  }

  lemma {:induction false} FourClean(s: seq<Byte>, d: seq<Byte>, over: Byte)
    requires |d| <= 4
    ensures var g := ReadFour(s, d, over, true); g.Got? ==> CleanTo(s, g.rest) && ReadFour(s, d, over, false) == g
    decreases |s|
  {
    hide ReadFour, IsUu, IsSpace, CleanTo;
    OneUu(s, d, over, true);
    OneUu(s, d, over, false);
    var g := ReadFour(s, d, over, true);
    if |d| == 4 || s == [] {
      CleanAlready(s);
    } else if IsUu(s[0]) {
      FourClean(s[1..], d + [s[0]], 0);
      if g.Got? {
        CleanMore(s, g.rest);
      }
    } else if IsSpace(s[0]) && s[0] != NEWLINE {
      FourClean(s[1..], d, s[0]);
      if g.Got? {
        CleanMore(s, g.rest);
      }
    }
  }

  lemma EndClean(s: seq<Byte>)
    ensures var r := AfterEnd(s, true); r.Some? ==> CleanTo(s, r.value) && AfterEnd(s, false) == r
  {
  }

  lemma CleanJoin(s: seq<Byte>, n: nat)
    requires n <= |s| && Clean(s[..n]) && Clean(s[n..])
    ensures Clean(s)
  {
    assert s == s[..n] + s[n..];
  }

  lemma CleanFirst(s: seq<Byte>)
    requires s != [] && IsUu(s[0]) && Clean(s[1..])
    ensures Clean(s)
  {
    assert s == [s[0]] + s[1..];
  }

  lemma CleanNone(s: seq<Byte>)
    requires s == []
    ensures Clean(s)
  {
  }

  /** What strict reading lets through has no characters but digits and white space, and reads alike if not strict. */
  lemma {:induction false} StrictClean(s: seq<Byte>, lineLen: int)
    requires lineLen >= -1 && DecodeFrom(s, lineLen, true).Data?
    ensures Clean(s) && DecodeFrom(s, lineLen, false) == DecodeFrom(s, lineLen, true)
    decreases |s|, 2
  {
    hide DecodeFrom, DecodeMore, ReadFour, ThreeBytes, AfterEnd, IsUu, IsSpace, Clean;
    if s == [] {
      AtTheEnd(s, lineLen, true);
      AtTheEnd(s, lineLen, false);
      CleanNone(s);
    } else {
      assert s[0..] == s;
      FirstStep(s, 0, lineLen, true);
      FirstStep(s, 0, lineLen, false);
      var left, text := if lineLen < 0 then Value(s[0]) else lineLen, if lineLen < 0 then s[1..] else s;
      FourClean(text, [], 0);
      var g := ReadFour(text, [], 0, true);
      var more := if left < 3 then 0 else left - 3;
      DecodeMoreIs(s, g.rest, more, true);
      DecodeMoreIs(s, g.rest, more, false);
      if more == 0 && g.rest != [] {
        EndClean(g.rest);
        var next := AfterEnd(g.rest, true).value;
        StrictClean(next, -1);
        CleanJoin(g.rest, |g.rest| - |next|);
      } else {
        StrictClean(g.rest, more);
      }
      CleanJoin(text, |text| - |g.rest|);
      if lineLen < 0 {
        CleanFirst(s);
      }
    }
  }

  // ---------------------------------------------------------------- four characters, where the text may end too soon

  /** The characters of s that stand for a value. */
  ghost function UuOf(s: seq<Byte>): (u: seq<Byte>)
    ensures |u| <= |s|
  {
    if s == [] then [] else (if IsUu(s[0]) then [s[0]] else []) + UuOf(s[1..])
  }

  /** What was passed over at the end of s, or 0. */
  ghost function PassedLast(s: seq<Byte>): Byte {
    if s == [] || IsUu(s[|s| - 1]) then 0 else s[|s| - 1]
  }

  /**
   * Decoding that is not strict takes the next four characters that stand for
   * a value. If there are fewer, a character passed over at the very end
   * stands in for the next one, and zeros for the others.
   */
  lemma FourAre(s: seq<Byte>)
    ensures var g, u := ReadFour(s, [], 0, false), UuOf(s);
            g.Got? && g.d == if |u| >= 4 then u[..4] else u + [PassedLast(s)] + seq(3 - |u|, _ => 0)
  {
    hide ReadFour, UuOf;
    RestOfFour(s, [], 0);
    assert s == [] ==> UuOf(s) == [] && PassedLast(s) == 0;
  }

  lemma {:induction false} RestOfFour(s: seq<Byte>, d: seq<Byte>, over: Byte)
    requires |d| <= 4
    ensures var g, u := ReadFour(s, d, over, false), d + UuOf(s);
            g.Got? && g.d == if |u| >= 4 then u[..4] else u + [if s == [] then over else PassedLast(s)] + seq(3 - |u|, _ => 0)
    decreases |s|
  {
    if |d| < 4 && s != [] {
      if IsUu(s[0]) {
        RestOfFour(s[1..], d + [s[0]], 0);
        assert d + [s[0]] + UuOf(s[1..]) == d + UuOf(s);
      } else {
        RestOfFour(s[1..], d, s[0]);
      }
    }
  }
}
