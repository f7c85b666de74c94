/** Base64 as text: its alphabet and the bits of a group, and which texts are decoded. */
module Base64Text {
  import opened Bytes
  import opened Base64

  const UPPER: string := "ABCDEFGHIJKLMNOPQRSTUVWXYZ"
  const LOWER: string := "abcdefghijklmnopqrstuvwxyz"
  const NUMERALS: string := "0123456789"
  const ALPHABET: string := UPPER + LOWER + NUMERALS + "+/"

  // ---------------------------------------------------------------- characters

  /** Digits are the characters of the alphabet, in its order. */
  lemma DigitIs(v: nat)
    requires v < 64
    ensures |ALPHABET| == 64 && Digit(v) == ALPHABET[v] as int
  {
    assert |UPPER| == |LOWER| == 26 && |NUMERALS| == 10;
    if v < 26 {
      assert ALPHABET[v] == UPPER[v];
    } else if v < 52 {
      assert ALPHABET[v] == LOWER[v - 26];
    } else if v < 62 {
      assert ALPHABET[v] == NUMERALS[v - 52];
    }
  }

  /** And nothing else has a value. */
  lemma ValueIs(c: Byte)
    ensures |ALPHABET| == 64 && (Value(c).Some? <==> exists v :: 0 <= v < 64 && ALPHABET[v] as int == c)
    ensures forall v :: 0 <= v < 64 && ALPHABET[v] as int == c ==> Value(c) == Some(v)
  {
    forall v | 0 <= v < 64 && ALPHABET[v] as int == c ensures Value(c) == Some(v) {
      DigitIs(v);
      ValueOfDigit(v);
    }
    if Value(c).Some? {
      DigitIs(Value(c).value);
    }
  }

  /** Three bytes are 24 bits, and each character of their group stands for six of them, the highest first;
      bytes that are missing count as zero, and characters that have no bit of a byte there is are padding. */
  lemma GroupBits(data: seq<Byte>, offset: nat, v0: nat, v1: nat, v2: nat, v3: nat)
    requires offset % 3 == 0 && offset < |data| && v0 < 64 && v1 < 64 && v2 < 64 && v3 < 64
    requires v0 * 0x4_0000 + v1 * 0x1000 + v2 * 0x40 + v3 ==
             data[offset] as int * 0x1_0000
             + (if offset + 1 < |data| then data[offset + 1] as int * 0x100 else 0)
             + (if offset + 2 < |data| then data[offset + 2] as int else 0)
    ensures offset / 3 * 4 + 3 < |Chars(data)|
    ensures var k := offset / 3 * 4;
            && Chars(data)[k] == Digit(v0) && Chars(data)[k + 1] == Digit(v1)
            && Chars(data)[k + 2] == (if offset + 1 < |data| then Digit(v2) else PAD)
            && Chars(data)[k + 3] == (if offset + 2 < |data| then Digit(v3) else PAD)
  {
    hide Chars, Digit, Quad;
    CharsAt(data, offset, 0);
    CharsAt(data, offset, 1);
    CharsAt(data, offset, 2);
    CharsAt(data, offset, 3);
    var d1: int := if offset + 1 < |data| then data[offset + 1] else 0;
    var d2: int := if offset + 2 < |data| then data[offset + 2] else 0;
    Sextets(data[offset], d1, d2, v0, v1, v2, v3);
    QuadIs(data, offset, d1, d2);
  }

  lemma QuadIs(data: seq<Byte>, offset: nat, d1: int, d2: int)
    requires offset < |data|
    requires d1 == (if offset + 1 < |data| then data[offset + 1] else 0) && d2 == if offset + 2 < |data| then data[offset + 2] else 0
    ensures var d0: int := data[offset];
            && 0 <= d0 / 4 < 64 && 0 <= d0 % 4 * 16 + d1 / 16 < 64 && 0 <= d1 % 16 * 4 + d2 / 64 < 64
            && Quad(data, offset) == [Digit(d0 / 4), Digit(d0 % 4 * 16 + d1 / 16),
                                      if offset + 1 < |data| then Digit(d1 % 16 * 4 + d2 / 64) else PAD,
                                      if offset + 2 < |data| then Digit(d2 % 64) else PAD]
  {
    hide Digit;
  }

  /** Some of the test vectors of section 10 of RFC 4648: f is Zg==, fo is Zm8=, foo is Zm9v. */
  lemma Vectors()
    ensures Chars([102]) == [90, 103, 61, 61] && Chars([102, 111]) == [90, 109, 56, 61]
    ensures Chars([102, 111, 111]) == [90, 109, 57, 118]
  {
    var foo: seq<Byte> := [102, 111, 111];
    assert foo[3..] == [];
  }

  // ---------------------------------------------------------------- texts that are decoded strictly

  /** Two or three digits and no more than the padding that is missing. */
  ghost predicate LastForm(s: seq<Byte>) {
    2 <= |s| <= 4 && Value(s[0]).Some? && Value(s[1]).Some?
    && (|s| > 2 ==> Value(s[2]).Some? || s[2] == PAD) && (|s| > 3 ==> s[3] == PAD)
  }

  ghost predicate FourDigitsFirst(s: seq<Byte>) {
    |s| >= 4 && forall i :: 0 <= i < 4 ==> Value(s[i]).Some?
  }

  /** Groups of four digits, and perhaps a shorter one with or without its padding. */
  ghost predicate StrictForm(s: seq<Byte>) {
    s == [] || LastForm(s) || (FourDigitsFirst(s) && StrictForm(s[4..]))
  }

  /** One character of a group, read strictly. */
  lemma StrictOne(s: seq<Byte>, i: nat, value: nat, cut: nat)
    requires i < 4 && (cut > 0 ==> i > 2)
    ensures var g := ReadGroup(s, i, value, cut, true);
            if s == [] then
              if i <= 1 then g.bad else g == ReadGroup([], i + 1, value * 64, cut + 1, true)
            else if cut == 0 && Value(s[0]).Some? then g == ReadGroup(s[1..], i + 1, value * 64 + Value(s[0]).value, 0, true)
            else if s[0] == PAD && i > 1 then g == ReadGroup(s[1..], i + 1, value * 64, cut + 1, true)
            else g.bad
  {
    hide Value;
    assert Value(PAD).None?;
  }

  /** The group that strict decoding reads first. */
  lemma StrictGroup(s: seq<Byte>)
    requires s != []
    ensures var g := ReadGroup(s, 0, 0, 0, true);
            if FourDigitsFirst(s) then !g.bad && g.cut == 0 && g.rest == s[4..]
            else !g.bad && g.rest == [] <==> LastForm(s)
    ensures var g := ReadGroup(s, 0, 0, 0, true); LastForm(s) ==> 0 < g.cut <= 2
    ensures var g := ReadGroup(s, 0, 0, 0, true); !g.bad && !FourDigitsFirst(s) ==> g.cut > 0
  {
    hide ReadGroup, Value;
    StrictOne(s, 0, 0, 0);
    if Value(s[0]).Some? {
      var v0 := Value(s[0]).value;
      StrictOne(s[1..], 1, v0, 0);
      if |s| > 1 && Value(s[1]).Some? {
        var v1 := v0 * 64 + Value(s[1]).value;
        assert s[1..][1..] == s[2..];
        StrictThird(s, v1);
      }
    }
  }

  lemma StrictThird(s: seq<Byte>, v1: nat)
    requires |s| >= 2
    ensures var g := ReadGroup(s[2..], 2, v1, 0, true);
            && (!g.bad <==> (|s| > 2 ==> Value(s[2]).Some? || s[2] == PAD)
                            && (|s| > 3 ==> s[3] == PAD || (Value(s[2]).Some? && Value(s[3]).Some?)))
            && (!g.bad ==> g.rest == if |s| > 4 then s[4..] else [])
            && (!g.bad ==> g.cut <= 2 && (g.cut == 0 <==> |s| > 3 && Value(s[2]).Some? && Value(s[3]).Some?))
  {
    hide ReadGroup, Value;
    assert Value(PAD).None?;
    var t := s[2..];
    StrictOne(t, 2, v1, 0);
    var none: seq<Byte> := [];
    if t == [] {
      StrictOne(none, 3, v1 * 64, 1);
      FullGroup(none, v1 * 64 * 64, 2, true);
    } else if Value(t[0]).Some? {
      var v2 := v1 * 64 + Value(t[0]).value;
      StrictOne(t[1..], 3, v2, 0);
      if |t| == 1 {
        FullGroup(none, v2 * 64, 1, true);
      } else {
        assert t[1..][1..] == s[4..];
        FullGroup(s[4..], v2 * 64, 1, true);
        if Value(t[1]).Some? {
          FullGroup(s[4..], v2 * 64 + Value(t[1]).value, 0, true);
        }
      }
    } else if t[0] == PAD {
      StrictOne(t[1..], 3, v1 * 64, 1);
      if |t| == 1 {
        FullGroup(none, v1 * 64 * 64, 2, true);
      } else {
        assert t[1..][1..] == s[4..];
        FullGroup(s[4..], v1 * 64 * 64, 2, true);
      }
    }
  }

  /** Strict decoding accepts exactly the texts of that form. */
  lemma StrictAccepts(s: seq<Byte>)
    ensures Decoded(s, true).Some? <==> StrictForm(s)
  {
    StrictAll(s);
  }

  lemma {:induction false} StrictAll(s: seq<Byte>)
    ensures DecodeAll(s, 0, true).Some? <==> StrictForm(s)
    decreases |s|
  {
    hide ReadGroup, LastForm, FourDigitsFirst, Bytes3;
    if s != [] {
      StrictGroup(s);
      if FourDigitsFirst(s) {
        NoLastForm(s);
        StrictAll(s[4..]);
      }
    }
  }

  lemma NoLastForm(s: seq<Byte>)
    requires FourDigitsFirst(s)
    ensures |s| >= 4 && !LastForm(s)
  {
    hide Value;
    assert Value(PAD).None?;
  }

  /** What strict decoding accepts, decoding that is not strict reads alike. */
  lemma {:induction false} StrictSame(s: seq<Byte>, cut: nat)
    requires DecodeAll(s, cut, true).Some?
    ensures DecodeAll(s, cut, false) == DecodeAll(s, cut, true)
    decreases |s|
  {
    hide ReadGroup, Bytes3;
    if s != [] {
      GroupSame(s, 0, 0, cut);
      var g := ReadGroup(s, 0, 0, cut, true);
      StrictSame(g.rest, g.cut);
    }
  }

  lemma {:induction false} GroupSame(s: seq<Byte>, i: nat, value: nat, cut: nat)
    requires i <= 4 && !ReadGroup(s, i, value, cut, true).bad
    ensures ReadGroup(s, i, value, cut, false) == ReadGroup(s, i, value, cut, true)
    decreases |s|, 4 - i
  {
    hide Value;
    if i < 4 {
      var c, rest := if s == [] then PAD else s[0], if s == [] then [] else s[1..];
      if cut == 0 && Value(c).Some? {
        GroupSame(rest, i + 1, value * 64 + Value(c).value, cut);
      } else {
        GroupSame(rest, i + 1, value * 64, cut + 1);
      }
    }
  }

  // ---------------------------------------------------------------- padding that is missing

  /** Whole groups at the beginning are decoded by themselves. */
  lemma {:induction false} WholeGroups(data: seq<Byte>, tail: seq<Byte>, strict: bool)
    requires |data| % 3 == 0
    ensures var r, t := DecodeAll(Chars(data) + tail, 0, strict), DecodeAll(tail, 0, strict);
            r == if t.None? then None else Some((data + t.value.0, t.value.1))
    decreases |data|
  {
    hide ReadGroup, Digit, Value, Bytes3, Whole, Chars, Quad, DecodeAll;
    var t := DecodeAll(tail, 0, strict);
    if data == [] {
      NoChars(data);
      assert Chars(data) + tail == tail;
      assert t.Some? ==> data + t.value.0 == t.value.0;
    } else {
      WholeGroups(data[3..], tail, strict);
      OneGroup(data, tail, strict);
      assert t.Some? ==> [data[0], data[1], data[2]] + (data[3..] + t.value.0) == data + t.value.0;
    }
  }

  lemma NoChars(data: seq<Byte>)
    requires data == []
    ensures Chars(data) == []
  {
  }

  lemma OneGroup(data: seq<Byte>, tail: seq<Byte>, strict: bool)
    requires |data| >= 3
    ensures var r, t := DecodeAll(Chars(data) + tail, 0, strict), DecodeAll(Chars(data[3..]) + tail, 0, strict);
            r == if t.None? then None else Some(([data[0], data[1], data[2]] + t.value.0, t.value.1))
  {
    hide ReadGroup, Digit, Value, Bytes3, Whole, FromDigits;
    var d0: int := data[0];
    var d1: int := data[1];
    var d2: int := data[2];
    QuadValues(d0, d1, d2);
    FourDigits(d0, d1, d2);
    ThreeBytes(data[0], data[1], data[2]);
    var rest := Chars(data[3..]) + tail;
    assert Chars(data) + tail == Quad(data, 0) + rest;
    ReadQuad(Quad(data, 0), rest, strict, d0 / 4, d0 % 4 * 16 + d1 / 16, d1 % 16 * 4 + d2 / 64, d2 % 64, 0);
  }

  /** Padding that is missing at the end is read as if it were there. */
  lemma MissingPad(i: nat, value: nat, cut: nat, strict: bool)
    requires 1 < i < 4
    ensures ReadGroup([PAD], i, value, cut, strict) == ReadGroup([], i, value, cut, strict)
  {
    hide Value;
    var pad := [PAD];
    assert pad[1..] == [];
  }

  lemma LastUnpadded(q: seq<Byte>, p: nat, strict: bool)
    requires |q| == 4 && Value(q[0]).Some? && Value(q[1]).Some? && q[3] == PAD
    requires p == 1 || (p == 2 && q[2] == PAD)
    requires q[2] == PAD || Value(q[2]).Some?
    ensures ReadGroup(q[..4 - p], 0, 0, 0, strict) == ReadGroup(q, 0, 0, 0, strict)
  {
    hide Value, ReadGroup;
    var s := q[..4 - p];
    var v0 := Value(q[0]).value;
    var v1 := v0 * 64 + Value(q[1]).value;
    DigitRead(q, 0, 0, strict, Value(q[0]).value);
    DigitRead(s, 0, 0, strict, Value(q[0]).value);
    DigitRead(q[1..], 1, v0, strict, Value(q[1]).value);
    DigitRead(s[1..], 1, v0, strict, Value(q[1]).value);
    assert q[1..][1..] == [q[2], PAD] && s[1..][1..] == q[2..4 - p];
    var none: seq<Byte> := [];
    var pads := [PAD, PAD];
    var third := [q[2], PAD];
    assert third[1..] == [PAD];
    if p == 2 {
      assert q[2..4 - p] == none && pads[1..] == [PAD];
      PadRead(pads, 2, v1, 0, strict);
      var pad := [PAD];
      assert pad[1..] == none;
      MissingPad(2, v1, 0, strict);
      PadRead(pad, 2, v1, 0, strict);
      MissingPad(3, v1 * 64, 1, strict);
    } else {
      var last := [q[2]];
      assert q[2..4 - p] == last && last[1..] == none;
      if q[2] == PAD {
        PadRead(third, 2, v1, 0, strict);
        PadRead(last, 2, v1, 0, strict);
        MissingPad(3, v1 * 64, 1, strict);
      } else {
        var v2 := Value(q[2]).value;
        DigitRead(third, 2, v1, strict, v2);
        DigitRead(last, 2, v1, strict, v2);
        MissingPad(3, v1 * 64 + v2, 0, strict);
      }
    }
  }

  /** The characters for some data are decoded to the data without some or all of their padding, too, strictly or not. */
  lemma Unpadded(data: seq<Byte>, p: nat, strict: bool)
    requires p == 0 || (|data| % 3 > 0 && p <= 3 - |data| % 3)
    ensures Decoded(Chars(data)[..|Chars(data)| - p], strict) == Some(data)
  {
    hide Chars, DecodeAll;
    PlainRoundTrip(data, strict);
    UnpaddedAlike(data, p, strict);
    DecodeSize(Chars(data)[..|Chars(data)| - p], 0, strict);
  }

  lemma UnpaddedAlike(data: seq<Byte>, p: nat, strict: bool)
    requires p == 0 || (|data| % 3 > 0 && p <= 3 - |data| % 3)
    ensures DecodeAll(Chars(data)[..|Chars(data)| - p], 0, strict) == DecodeAll(Chars(data), 0, strict)
  {
    hide Chars, DecodeAll, ReadGroup, Value, Digit;
    if p == 0 {
      assert Chars(data)[..|Chars(data)|] == Chars(data);
    } else {
      var n := |data| / 3 * 3;
      var whole, last := data[..n], data[n..];
      CharsJoin(whole, last);
      assert whole + last == data;
      var q := Chars(last);
      assert Chars(data)[..|Chars(data)| - p] == Chars(whole) + q[..4 - p];
      WholeGroups(whole, q[..4 - p], strict);
      WholeGroups(whole, q, strict);
      LastAlike(last, p, strict);
    }
  }

  lemma LastAlike(last: seq<Byte>, p: nat, strict: bool)
    requires 0 < |last| < 3 && 0 < p <= 3 - |last|
    ensures DecodeAll(Chars(last)[..4 - p], 0, strict) == DecodeAll(Chars(last), 0, strict)
  {
    hide ReadGroup, Digit, Value, Bytes3;
    var d0: int := last[0];
    var d1: int := if |last| == 2 then last[1] else 0;
    QuadValues(d0, d1, 0);
    assert |last| == 1 ==> d0 % 4 * 16 + d1 / 16 == d0 % 4 * 16;
    LastUnpadded(Chars(last), p, strict);
    assert Chars(last)[..4 - p] != [];
  }

  lemma {:induction false} CharsJoin(whole: seq<Byte>, last: seq<Byte>)
    requires |whole| % 3 == 0
    ensures Chars(whole + last) == Chars(whole) + Chars(last)
    decreases |whole|
  {
    hide Digit;
    if whole == [] {
      assert whole + last == last;
    } else {
      CharsJoin(whole[3..], last);
      assert (whole + last)[3..] == whole[3..] + last;
    }
  }

  /** A group that ends with no character or one is bad if strict, and cut off if not. */
  lemma NothingLeft(i: nat, value: nat, cut: nat)
    requires i <= 1
    ensures ReadGroup([], i, value, cut, true).bad && ReadGroup([], i, value, cut, false) == Group(value, cut + 3, [], false)
  {
  }

  lemma OneAlone(tail: seq<Byte>, v: nat, strict: bool)
    requires v < 64 && tail == [Digit(v)]
    ensures DecodeAll(tail, 0, strict) == if strict then None else Some((Bytes3(v), 3))
  {
    hide Digit, Value, Bytes3, ReadGroup;
    ValueOfDigit(v);
    DigitRead(tail, 0, 0, strict, v);
    assert tail[1..] == [];
    NothingLeft(1, v, 0);
    assert Bytes3(v) + [] == Bytes3(v);
  }

  /** One digit too many is bad if strict, and dropped if not. */
  lemma OneLeft(data: seq<Byte>, v: nat, strict: bool)
    requires |data| % 3 == 0 && v < 64
    ensures Decoded(Chars(data) + [Digit(v)], strict) == if strict then None else Some(data)
  {
    hide Chars, Digit, DecodeAll;
    var tail := [Digit(v)];
    WholeGroups(data, tail, strict);
    OneAlone(tail, v, strict);
    DecodeSize(Chars(data) + tail, 0, strict);
  }

  // ---------------------------------------------------------------- what does not count

  /** Characters that do not count, after the last that does, make no difference or add bytes that are cut. */
  lemma {:induction false} JunkAtEnd(s: seq<Byte>, junk: seq<Byte>, cut: nat)
    requires forall i :: 0 <= i < |junk| ==> !Counts(junk[i])
    ensures var r, t := DecodeAll(s, cut, false), DecodeAll(s + junk, cut, false);
            && r.Some? && t.Some? && r.value.1 <= cut + |r.value.0| && t.value.1 <= cut + |t.value.0|
            && |r.value.0| + t.value.1 == |t.value.0| + r.value.1 && r.value.0 <= t.value.0
    decreases |s|
  {
    hide ReadGroup, Bytes3, Counts;
    NeverBad(s, cut);
    NeverBad(s + junk, cut);
    DecodeSize(s, cut, false);
    DecodeSize(s + junk, cut, false);
    if s == [] {
      assert s + junk == junk;
      if junk != [] {
        JunkAlone(junk, cut);
      }
    } else {
      GroupNeverBad(s, 0, 0, cut);
      JunkAfter(s, junk, 0, 0, cut);
      var g := ReadGroup(s, 0, 0, cut, false);
      var h := ReadGroup(s + junk, 0, 0, cut, false);
      if h.rest == g.rest + junk {
        JunkAtEnd(g.rest, junk, g.cut);
      } else {
        assert g.rest == h.rest == [];
      }
    }
  }

  lemma JunkAlone(junk: seq<Byte>, cut: nat)
    requires junk != [] && forall i :: 0 <= i < |junk| ==> !Counts(junk[i])
    ensures var t := DecodeAll(junk, cut, false); t.Some? && |t.value.0| == 3 && t.value.1 == cut + 3
  {
    hide ReadGroup, Counts;
    JunkOnly(junk, 0, 0, cut);
    NothingLeft(0, 0, cut);
  }

  lemma {:induction false} JunkOnly(junk: seq<Byte>, i: nat, value: nat, cut: nat)
    requires i < 4 && forall i :: 0 <= i < |junk| ==> !Counts(junk[i])
    ensures ReadGroup(junk, i, value, cut, false) == ReadGroup([], i, value, cut, false)
    decreases |junk|
  {
    hide ReadGroup, Counts;
    if junk != [] {
      SkipRead(junk, i, value, cut);
      JunkOnly(junk[1..], i, value, cut);
    }
  }

  lemma {:induction false} JunkAfter(s: seq<Byte>, junk: seq<Byte>, i: nat, value: nat, cut: nat)
    requires i <= 4 && forall i :: 0 <= i < |junk| ==> !Counts(junk[i])
    ensures var g, h := ReadGroup(s, i, value, cut, false), ReadGroup(s + junk, i, value, cut, false);
            && h.value == g.value && h.cut == g.cut && !g.bad && !h.bad
            && (h.rest == g.rest + junk || (g.rest == [] && h.rest == []))
    decreases |s|, 4 - i
  {
    hide ReadGroup, Counts, Value;
    if i == 4 {
      FullGroup(s, value, cut, false);
      FullGroup(s + junk, value, cut, false);
    } else if s == [] {
      assert s + junk == junk;
      JunkOnly(junk, i, value, cut);
      NoneRead(i, value, cut);
      GroupNeverBad(s, i, value, cut);
    } else {
      assert (s + junk)[1..] == s[1..] + junk;
      if Counts(s[0]) {
        OneRead(s, i, value, cut);
        OneRead(s + junk, i, value, cut);
        var r := AfterOne(s[0], i, value, cut);
        JunkAfter(s[1..], junk, r.0, r.1, r.2);
      } else {
        SkipRead(s, i, value, cut);
        SkipRead(s + junk, i, value, cut);
        JunkAfter(s[1..], junk, i, value, cut);
      }
    }
  }

  /** Decoding that is not strict sees only the characters that count. */
  lemma JunkIgnored(s: seq<Byte>)
    ensures Decoded(s, false) == Decoded(Kept(s), false)
  {
    hide Counts, DecodeAll, Kept;
    var n := LastThatCounts(s);
    var t, junk := s[..n], s[n..];
    assert s == t + junk;
    AllKept(t, 0);
    KeptJoin(t, junk);
    KeptNone(junk);
    assert Kept(t) + Kept(junk) == Kept(t);
    JunkAtEnd(t, junk, 0);
    SameDecoded(t, s);
  }

  lemma SameDecoded(s: seq<Byte>, t: seq<Byte>)
    requires var r, q := DecodeAll(s, 0, false), DecodeAll(t, 0, false);
             && r.Some? && q.Some? && r.value.1 <= |r.value.0| && q.value.1 <= |q.value.0|
             && |r.value.0| + q.value.1 == |q.value.0| + r.value.1 && r.value.0 <= q.value.0
    ensures Decoded(s, false) == Decoded(t, false)
  {
    hide DecodeAll;
    var r, q := DecodeAll(s, 0, false).value, DecodeAll(t, 0, false).value;
    var n := |r.0| - r.1;
    assert n == |q.0| - q.1;
    assert r.0[..n] == q.0[..n];
  }

  /** Where the last character that counts ends. */
  lemma {:induction false} LastThatCounts(s: seq<Byte>) returns (n: nat)
    ensures n <= |s| && EndsWell(s[..n]) && forall i :: n <= i < |s| ==> !Counts(s[i])
  {
    n := |s|;
    while n > 0 && !Counts(s[n - 1])
      invariant n <= |s| && forall i :: n <= i < |s| ==> !Counts(s[i])
    {
      n := n - 1;
    }
  }
}
