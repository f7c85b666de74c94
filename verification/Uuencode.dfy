/** The uuencode encoder and decoder: lines that begin with the number of bytes they stand for. */
module Uuencode {
  import opened Bytes

  datatype Option<T> = None | Some(value: T)

  // ---------------------------------------------------------------- the alphabet

  const NEWLINE: Byte := 10

  predicate IsUu(c: Byte) {
    32 <= c <= 96
  }

  predicate IsSpace(c: Byte) {
    9 <= c <= 13 || c == 32
  }

  /** The character for six bits; zero is a back-quote, not a space. */
  function Digit(v: int): (c: Byte)
    requires 0 <= v < 64
    ensures IsUu(c)
  {
    if v == 0 then 96 else 32 + v
  }

  /** The low six bits of a character less 32, whatever the character. */
  function Value(c: int): (v: nat)
    ensures v < 64
  {
    (c - 32) % 64
  }

  lemma ValueOfDigit(v: int)
    requires 0 <= v < 64
    ensures Value(Digit(v)) == v
  {
  }

  // ---------------------------------------------------------------- the lines for some data

  function At(b: seq<Byte>, i: nat): (x: int)
    ensures 0 <= x < 0x100
  {
    if i < |b| then b[i] else 0
  }

  /** The k-th six bits of some bytes, and of zeros after them. */
  ghost function SixAt(b: seq<Byte>, k: nat): (v: nat)
    ensures v < 64
  {
    var q := k / 4 * 3;
    if k % 4 == 0 then At(b, q) / 4
    else if k % 4 == 1 then At(b, q) % 4 * 16 + At(b, q + 1) / 16
    else if k % 4 == 2 then At(b, q + 1) % 16 * 4 + At(b, q + 2) / 64
    else At(b, q + 2) % 64
  }

  /** How many times six bits n bytes take. */
  ghost function Sixes(n: nat): nat {
    (8 * n + 5) / 6
  }

  /** The characters for the first k times six bits. */
  ghost function Chars(b: seq<Byte>, k: nat): (s: seq<Byte>)
    ensures |s| == k
    ensures forall j :: 0 <= j < k ==> s[j] == Digit(SixAt(b, j))
  {
    if k == 0 then [] else Chars(b, k - 1) + [Digit(SixAt(b, k - 1))]
  }

  ghost function Line(b: seq<Byte>): (s: seq<Byte>)
    requires |b| < 64
    ensures |s| == 1 + Sixes(|b|)
  {
    [Digit(|b|)] + Chars(b, Sixes(|b|))
  }

  /** The data in lines for raw bytes each, with wrap after every line. */
  ghost function Encoded(data: seq<Byte>, raw: nat, wrap: seq<Byte>): seq<Byte>
    requires 0 < raw < 64
    decreases |data|
  {
    if data == [] then []
    else
      var n := if |data| > raw then raw else |data|;
      Line(data[..n]) + wrap + Encoded(data[n..], raw, wrap)
  }

  // ---------------------------------------------------------------- options

  /** How many bytes a line is for, from the longest length a line may have. */
  ghost function RawLength(maxlen: nat): (raw: nat)
    requires 5 <= maxlen
  {
    (maxlen - 1) / 4 * 3
  }

  lemma RawLengthFits(maxlen: nat)
    requires 5 <= maxlen <= 85
    ensures var raw := RawLength(maxlen);
            3 <= raw < 64 && raw % 3 == 0 && 1 + Sixes(raw) <= maxlen < 5 + Sixes(raw)
    ensures var lineLength := (maxlen - 1) / 4 * 4 + 1;
            5 <= lineLength <= 85 && lineLength % 4 == 1 && RawLength(lineLength) == RawLength(maxlen)
  {
    var q := (maxlen - 1) / 4;
    assert (8 * (q * 3) + 5) / 6 == 4 * q;
  }

  predicate IsBlank(c: Byte) {
    c == 9 || c == 11 || c == 12 || c == 13
  }

  /** Blank characters come first, and then nothing or a newline. */
  ghost predicate BlankTo(wrap: seq<Byte>, n: nat) {
    && n <= |wrap| && (forall i :: 0 <= i < n ==> wrap[i] in {9, 11, 12, 13})
    && (n < |wrap| ==> wrap[n] == NEWLINE)
  }

  /** What the check of the line ends lets through. */
  ghost predicate Accepted(wrap: seq<Byte>) {
    exists n: nat :: BlankTo(wrap, n)
  }

  /** What it is documented to let through: blank characters and at most one newline after them. */
  ghost predicate Documented(wrap: seq<Byte>) {
    exists n: nat :: BlankTo(wrap, n) && |wrap| <= n + 1
  }

  /** The check stops looking at the first newline. */
  method CheckWrap(wrap: seq<Byte>) returns (ok: bool)
    ensures ok <==> Accepted(wrap)
  {
    var p, numBytes := 0, |wrap|;
    while numBytes != 0
      invariant 0 <= numBytes <= |wrap| - p && 0 <= p
      invariant forall i :: 0 <= i < p ==> IsBlank(wrap[i])
      invariant p + numBytes == |wrap| || wrap[p] == NEWLINE
      decreases numBytes
    {
      var c := wrap[p];
      if IsBlank(c) {
        p := p + 1;
        numBytes := numBytes - 1;
      } else if c == NEWLINE {
        numBytes := numBytes - 1;
      } else {
        return false;
      }
    }
    assert BlankTo(wrap, p);
    return true;
  }

  /** The check does what is documented for exactly the line ends that have no newline before their last character. */
  lemma DocumentedIs(wrap: seq<Byte>)
    ensures Documented(wrap) <==> Accepted(wrap) && forall i :: 0 <= i < |wrap| - 1 ==> wrap[i] != NEWLINE
  {
    if Documented(wrap) {
      var n: nat :| BlankTo(wrap, n) && |wrap| <= n + 1;
    }
    if Accepted(wrap) && forall i :: 0 <= i < |wrap| - 1 ==> wrap[i] != NEWLINE {
      var n: nat :| BlankTo(wrap, n);
    }
  }

  // ---------------------------------------------------------------- encoding

  const WORD := 0x1_0000_0000

  function Pow2(k: nat): (p: nat)
    ensures p > 0
  {
    if k == 0 then 1 else 2 * Pow2(k - 1)
  }

  /** How many times six bits have been written after i bytes of a line. */
  ghost function Written(i: nat): nat {
    if i == 0 then 0 else (8 * i - 1) / 6
  }

  /** Encodes bytes, in lines of at most maxlen characters with wrap after each; None for options that are refused. */
  method Encode(data: seq<Byte>, maxlen: int, wrap: seq<Byte>) returns (result: Option<seq<Byte>>)
    ensures result.None? <==> !(5 <= maxlen <= 85) || !Accepted(wrap)
    ensures result.Some? ==> 0 < RawLength(maxlen) < 64 && result.value == Encoded(data, RawLength(maxlen), wrap)
  {
    hide Encoded, Sixes, RawLength, Accepted;
    if maxlen < 5 || maxlen > 85 {
      return None;
    }
    RawLengthFits(maxlen);
    var lineLength := (maxlen - 1) / 4 * 4 + 1;
    var ok := CheckWrap(wrap);
    if !ok {
      return None;
    }
    var r := EncodeLines(data, lineLength, wrap);
    result := Some(r);
  }

  method EncodeLines(data: seq<Byte>, lineLength: nat, wrap: seq<Byte>) returns (result: seq<Byte>)
    requires 5 <= lineLength <= 85 && lineLength % 4 == 1
    ensures 0 < RawLength(lineLength) < 64 && result == Encoded(data, RawLength(lineLength), wrap)
  {
    hide Encoded, Line, Room, Sixes, RawLength;
    var rawLength := (lineLength - 1) * 3 / 4;
    RawRoom(lineLength);
    IsRoom(|data|, rawLength, lineLength + |wrap|);
    var buf := new Byte[(lineLength + |wrap|) * ((|data| + (rawLength - 1)) / rawLength)];
    var n: nat, cursor: nat, offset: nat := 0, 0, 0;
    assert data[0..] == data;
    while offset < |data|
      invariant offset <= |data| && n < WORD && cursor <= buf.Length
      invariant buf[..cursor] + Encoded(data[offset..], rawLength, wrap) == Encoded(data, rawLength, wrap)
      invariant cursor + Room(|data| - offset, rawLength, lineLength + |wrap|) <= buf.Length
    {
      var lineLen := |data| - offset;
      if lineLen > rawLength {
        lineLen := rawLength;
      }
      LinesLess(|data| - offset, rawLength, lineLength + |wrap|);
      MoreSixes(lineLen, rawLength);
      FirstLine(data, offset, rawLength, wrap);
      ghost var was := buf[..cursor];
      cursor, n := EncodeLine(buf, cursor, data, offset, lineLen, n);
      offset := offset + lineLen;
      ghost var line := buf[..cursor];
      cursor := CopyWrap(buf, cursor, wrap);
      assert buf[..cursor] == was + (Line(data[offset - lineLen..offset]) + wrap);
    }
    NothingLeft(data[offset..], rawLength, wrap);
    result := buf[..cursor];
  }

  /** The room that lines for m bytes may take. */
  ghost function Room(m: nat, raw: nat, room: nat): nat
    requires raw > 0
  {
    room * ((m + (raw - 1)) / raw)
  }

  lemma IsRoom(m: nat, raw: nat, room: nat)
    requires raw > 0
    ensures Room(m, raw, room) == room * ((m + (raw - 1)) / raw) >= 0
  {
  }

  lemma RawRoom(lineLength: nat)
    requires 5 <= lineLength <= 85 && lineLength % 4 == 1
    ensures var raw := (lineLength - 1) * 3 / 4;
            raw == RawLength(lineLength) && 0 < raw < 64 && Sixes(raw) == lineLength - 1
  {
  }

  lemma NothingLeft(data: seq<Byte>, raw: nat, wrap: seq<Byte>)
    requires 0 < raw < 64 && data == []
    ensures Encoded(data, raw, wrap) == []
  {
  }

  lemma MoreSixes(m: nat, n: nat)
    requires m <= n
    ensures Sixes(m) <= Sixes(n)
  {
  }

  /** A line less takes one line's room less. */
  lemma LinesLess(m: nat, raw: nat, room: nat)
    requires m > 0 && raw > 0
    ensures var left := if m > raw then m - raw else 0;
            Room(m, raw, room) == room + Room(left, raw, room)
  {
    var left := if m > raw then m - raw else 0;
    var k := (left + (raw - 1)) / raw;
    var n := if m > raw then left + (raw - 1) else m - 1;
    DropOne(n, raw);
    DropOne(raw - 1, raw);
    assert m + (raw - 1) == n + raw;
    var lines := (m + (raw - 1)) / raw;
    OneRoomLess(lines, k, room);
  }

  lemma OneRoomLess(lines: int, k: int, room: int)
    requires lines == k + 1
    ensures room * lines == room + room * k
  {
  }

  lemma EncodedIs(data: seq<Byte>, raw: nat, wrap: seq<Byte>)
    requires 0 < raw < 64 && data != []
    ensures var n := if |data| > raw then raw else |data|;
            Encoded(data, raw, wrap) == Line(data[..n]) + wrap + Encoded(data[n..], raw, wrap)
  {
    hide Line;
  }

  lemma FirstLine(data: seq<Byte>, offset: nat, raw: nat, wrap: seq<Byte>)
    requires 0 < raw < 64 && offset < |data|
    ensures var n := if |data| - offset > raw then raw else |data| - offset;
            Encoded(data[offset..], raw, wrap) == Line(data[offset..offset + n]) + wrap + Encoded(data[offset + n..], raw, wrap)
  {
    hide Line, Encoded;
    var n := if |data| - offset > raw then raw else |data| - offset;
    EncodedIs(data[offset..], raw, wrap);
    assert data[offset..][..n] == data[offset..offset + n] && data[offset..][n..] == data[offset + n..];
  }

  method CopyWrap(buf: array<Byte>, cursor0: nat, wrap: seq<Byte>) returns (cursor: nat)
    requires cursor0 + |wrap| <= buf.Length
    modifies buf
    ensures cursor == cursor0 + |wrap| && buf[..cursor] == old(buf[..cursor0]) + wrap
  {
    cursor := cursor0;
    var j := 0;
    while j < |wrap|
      invariant 0 <= j <= |wrap| && cursor == cursor0 + j
      invariant buf[..cursor] == old(buf[..cursor0]) + wrap[..j]
    {
      ghost var was := buf[..cursor];
      buf[cursor] := wrap[j];
      assert buf[..cursor] == was;
      cursor := cursor + 1;
      assert buf[..cursor] == was + [wrap[j]];
      j := j + 1;
    }
    assert wrap[..j] == wrap;
  }

  /** Writes one line, six bits at a time; at most six bits wait in n. */
  method EncodeLine(buf: array<Byte>, cursor0: nat, data: seq<Byte>, offset0: nat, lineLen: nat, n0: nat)
    returns (cursor: nat, n: nat)
    requires 0 < lineLen < 64 && offset0 + lineLen <= |data| && n0 < WORD && cursor0 + 1 + Sixes(lineLen) <= buf.Length
    modifies buf
    ensures n < WORD && cursor == cursor0 + 1 + Sixes(lineLen)
    ensures buf[..cursor] == old(buf[..cursor0]) + Line(data[offset0..offset0 + lineLen])
  {
    hide Digit, SixAt, Chars, Pow2;
    ghost var line := data[offset0..offset0 + lineLen];
    ghost var was := buf[..cursor0] + [Digit(lineLen)];
    var bits, offset, i := 0, offset0, 0;
    n := n0;
    cursor := Write(buf, cursor0, Digit(lineLen));
    assert buf[..cursor] == was + Chars(line, 0);
    while i < lineLen
      invariant 0 <= i <= lineLen && offset == offset0 + i && n < WORD
      invariant cursor == cursor0 + 1 + Written(i) && bits == 8 * i - 6 * Written(i)
      invariant buf[..cursor] == was + Chars(line, Written(i))
      invariant i > 0 ==> n % 0x100 == At(line, i - 1)
    {
      cursor, n, bits := EncodeByte(buf, cursor, n, bits, data[offset], line, i, was);
      offset := offset + 1;
      i := i + 1;
    }
    LastSix(n, bits, line);
    n := n * 0x100 % WORD;
    cursor := Write(buf, cursor, Digit(n / Pow2(bits + 2) % 64));
    assert buf[..cursor] == was + Chars(line, Written(lineLen) + 1);
    assert buf[..cursor] == old(buf[..cursor0]) + Line(line);
  }

  method Write(buf: array<Byte>, cursor0: nat, c: Byte) returns (cursor: nat)
    requires cursor0 < buf.Length
    modifies buf
    ensures cursor == cursor0 + 1 && buf[..cursor] == old(buf[..cursor0]) + [c]
  {
    ghost var was := buf[..cursor0];
    buf[cursor0] := c;
    assert buf[..cursor0] == was;
    cursor := cursor0 + 1;
  }

  /** Takes one more byte, and writes all but the last six bits or fewer. */
  method EncodeByte(buf: array<Byte>, cursor0: nat, n0: nat, bits0: nat, x: Byte, ghost line: seq<Byte>, ghost i: nat,
                    ghost was: seq<Byte>)
    returns (cursor: nat, n: nat, bits: nat)
    requires i < |line| && x == line[i] && n0 < WORD && bits0 == 8 * i - 6 * Written(i)
    requires cursor0 + Written(i + 1) - Written(i) <= buf.Length && buf[..cursor0] == was + Chars(line, Written(i))
    requires i > 0 ==> n0 % 0x100 == At(line, i - 1)
    modifies buf
    ensures n < WORD && cursor == cursor0 + Written(i + 1) - Written(i) && bits == 8 * (i + 1) - 6 * Written(i + 1)
    ensures buf[..cursor] == was + Chars(line, Written(i + 1)) && n % 0x100 == At(line, i)
  {
    hide Digit, SixAt, Chars, Pow2, At;
    n := n0 * 0x100 % WORD;
    n := n + x;
    NextSix(n0, n, x, line, i);
    bits := bits0 + 8;
    cursor := cursor0;
    ghost var k := Written(i);
    while bits > 6
      invariant bits == 8 * (i + 1) - 6 * k && Written(i) <= k <= Written(i + 1) && cursor == cursor0 + k - Written(i)
      invariant buf[..cursor] == was + Chars(line, k)
      decreases bits
    {
      cursor := Write(buf, cursor, Digit(n / Pow2(bits - 6) % 64));
      bits := bits - 6;
      MoreChars(line, k);
      k := k + 1;
    }
  }

  lemma MoreChars(line: seq<Byte>, k: nat)
    ensures Chars(line, k + 1) == Chars(line, k) + [Digit(SixAt(line, k))]
  {
  }

  /** The six bits of n from bits - 6 on are the next to write, as long as there are more than six. */
  lemma NextSix(n0: nat, n: nat, x: int, line: seq<Byte>, i: nat)
    requires i < |line| && x == line[i] && n == n0 * 0x100 % WORD + x
    requires i > 0 ==> n0 % 0x100 == At(line, i - 1)
    ensures n < WORD && n % 0x100 == At(line, i)
    ensures forall k: nat {:trigger SixAt(line, k)} ::
              Written(i) <= k < Written(i + 1) ==> n / Pow2(8 * (i + 1) - 6 * k - 6) % 64 == SixAt(line, k)
  {
    forall k: nat | Written(i) <= k < Written(i + 1)
      ensures n / Pow2(8 * (i + 1) - 6 * k - 6) % 64 == SixAt(line, k)
    {
      SixOf(n0, n, x, line, i, k);
    }
  }

  lemma SixOf(n0: nat, n: nat, x: int, line: seq<Byte>, i: nat, k: nat)
    requires i < |line| && x == line[i] && n == n0 * 0x100 % WORD + x && Written(i) <= k < Written(i + 1)
    requires i > 0 ==> n0 % 0x100 == At(line, i - 1)
    ensures n / Pow2(8 * (i + 1) - 6 * k - 6) % 64 == SixAt(line, k)
  {
    hide Pow2, SixAt, At, Written;
    var q, r := i / 3, i % 3;
    WhereWritten(i);
    WhereWritten(i + 1);
    var e := 8 * (i + 1) - 6 * k - 6;
    assert i == 3 * q + r;
    AtLine(line, i);
    LowBits(n0, n, x);
    NestedMod(n0);
    Powers();
    if r == 0 && k == 4 * q - 1 {
      SixOfGroup(line, q - 1);
      assert e == 8 && k == 4 * (q - 1) + 3 && i - 1 == 3 * (q - 1) + 2;
      assert n / Pow2(e) % 64 == n / 0x100 % 64;
    } else if r == 0 {
      SixOfGroup(line, q);
      assert k == 4 * q && e == 2 && i == 3 * q;
      assert n / Pow2(e) % 64 == n / 4 % 64;
    } else if r == 1 {
      SixOfGroup(line, q);
      assert k == 4 * q + 1 && e == 4 && i == 3 * q + 1;
      assert n / Pow2(e) % 64 == n / 16 % 64;
    } else {
      SixOfGroup(line, q);
      assert k == 4 * q + 2 && e == 6 && i == 3 * q + 2;
      assert n / Pow2(e) % 64 == n / 64 % 64;
    }
  }

  lemma AtLine(b: seq<Byte>, i: nat)
    requires i < |b|
    ensures At(b, i) == b[i]
  {
  }

  lemma WhereWritten(i: nat)
    ensures var q, r := i / 3, i % 3;
            Written(i) == if i == 0 then 0 else if r == 0 then 4 * q - 1 else 4 * q + r
  {
    var q, r := i / 3, i % 3;
    if i > 0 {
      DivIs(8 * i - 1, 6, if r == 0 then 4 * q - 1 else 4 * q + r, if r == 0 then 5 else if r == 1 then 1 else 3);
    }
  }

  /** The four times six bits of three bytes. */
  lemma SixOfGroup(b: seq<Byte>, q: nat)
    ensures SixAt(b, 4 * q) == At(b, 3 * q) / 4 && SixAt(b, 4 * q + 1) == At(b, 3 * q) % 4 * 16 + At(b, 3 * q + 1) / 16
    ensures SixAt(b, 4 * q + 2) == At(b, 3 * q + 1) % 16 * 4 + At(b, 3 * q + 2) / 64 && SixAt(b, 4 * q + 3) == At(b, 3 * q + 2) % 64
  {
    hide At;
    DivIs(4 * q, 4, q, 0);
    DivIs(4 * q + 1, 4, q, 1);
    DivIs(4 * q + 2, 4, q, 2);
    DivIs(4 * q + 3, 4, q, 3);
  }

  lemma Powers()
    ensures Pow2(2) == 4 && Pow2(4) == 16 && Pow2(6) == 64 && Pow2(8) == 0x100
  {
  }

  lemma LowBits(n0: nat, n: nat, x: int)
    requires 0 <= x < 0x100 && n == n0 * 0x100 % WORD + x
    ensures n < WORD && n % 0x100 == x && n / 4 % 64 == x / 4
    ensures n / 16 % 64 == n0 % 4 * 16 + x / 16 && n / 64 % 64 == n0 % 16 * 4 + x / 64 && n / 0x100 % 64 == n0 % 64
  {
    var h, m := n0 / 0x100_0000, n0 % 0x100_0000;
    WordPart(n0, h, m);
    ShiftedBits(m, n, x);
  }

  lemma WordPart(n0: nat, h: nat, m: nat)
    requires n0 == h * 0x100_0000 + m && m < 0x100_0000
    ensures n0 * 0x100 % WORD == m * 0x100
    ensures n0 % 4 == m % 4 && n0 % 16 == m % 16 && n0 % 64 == m % 64
  {
    DivIs(n0 * 0x100, WORD, h, m * 0x100);
    DivIs(n0, 4, h * 0x40_0000 + m / 4, m % 4);
    DivIs(n0, 16, h * 0x10_0000 + m / 16, m % 16);
    DivIs(n0, 64, h * 0x4_0000 + m / 64, m % 64);
  }

  lemma ShiftedBits(m: nat, n: nat, x: int)
    requires 0 <= x < 0x100 && n == m * 0x100 + x
    ensures n % 0x100 == x && n / 4 % 64 == x / 4
    ensures n / 16 % 64 == m % 4 * 16 + x / 16 && n / 64 % 64 == m % 16 * 4 + x / 64 && n / 0x100 % 64 == m % 64
  {
    DivIs(n, 0x100, m, x);
    BitsFrom(n, 4, m * 64, x, m, x / 4);
    BitsFrom(n, 16, m * 16, x, m / 4, m % 4 * 16 + x / 16);
    BitsFrom(n, 64, m * 4, x, m / 16, m % 16 * 4 + x / 64);
  }

  lemma BitsFrom(n: nat, d: nat, high: nat, x: int, q: nat, bits: nat)
    requires d > 0 && x >= 0 && n == high * d + x && high + x / d == q * 64 + bits && bits < 64
    ensures n / d % 64 == bits
  {
    DivIs(n, d, high + x / d, x % d);
    DivIs(high + x / d, 64, q, bits);
  }

  /** The bits that are left, and zeros after them. */
  lemma LastSix(n: nat, bits: nat, line: seq<Byte>)
    requires line != [] && bits == 8 * |line| - 6 * Written(|line|) && n % 0x100 == At(line, |line| - 1)
    ensures n * 0x100 % WORD / Pow2(bits + 2) % 64 == SixAt(line, Written(|line|)) && Written(|line|) + 1 == Sixes(|line|)
    ensures Chars(line, Written(|line|) + 1) == Chars(line, Written(|line|)) + [Digit(SixAt(line, Written(|line|)))]
  {
    hide Pow2, SixAt, At, Written, Sixes;
    Powers();
    LowBits(n, n * 0x100 % WORD, 0);
    var m := |line|;
    var q, r := m / 3, m % 3;
    WhereWritten(m);
    SixesAre(m);
    SixOfGroup(line, if r == 0 then q - 1 else q);
    AtEnd(line, m);
    AtEnd(line, m + 1);
    NestedMod(n);
  }

  lemma AtEnd(b: seq<Byte>, i: nat)
    requires i >= |b|
    ensures At(b, i) == 0
  {
  }

  lemma NestedMod(n: nat)
    ensures n % 0x100 % 4 == n % 4 && n % 0x100 % 16 == n % 16 && n % 0x100 % 64 == n % 64
  {
  }

  lemma SixesAre(n: nat)
    ensures Sixes(n) == n / 3 * 4 + if n % 3 == 0 then 0 else n % 3 + 1
  {
    var q, r := n / 3, n % 3;
    DivIs(8 * n + 5, 6, 4 * q + (if r == 0 then 0 else r + 1), if r == 0 then 5 else if r == 1 then 1 else 3);
  }

  // ---------------------------------------------------------------- decoding

  datatype Outcome = Data(bytes: seq<Byte>) | Bad | Short

  /** Four characters and what comes after them, or why there are none. */
  datatype Quartet = Got(d: seq<Byte>, rest: seq<Byte>) | BadChar | ShortLine

  /**
   * Reads the rest of four characters, of which d have been read. Where the
   * text ends too soon, the next one is what was passed over last, and the
   * others are zero.
   */
  function ReadFour(s: seq<Byte>, d: seq<Byte>, over: Byte, strict: bool): (g: Quartet)
    requires |d| <= 4
    ensures g.Got? ==> |g.d| == 4 && |g.rest| <= |s| && (s != [] && |d| < 4 ==> |g.rest| < |s|)
    decreases |s|
  {
    if |d| == 4 then Got(d, s)
    else if s == [] then Got(d + [over] + seq(3 - |d|, _ => 0), [])
    else if IsUu(s[0]) then ReadFour(s[1..], d + [s[0]], 0, strict)
    else if strict && !IsSpace(s[0]) then BadChar
    else if strict && s[0] == NEWLINE then ShortLine
    else ReadFour(s[1..], d, s[0], strict)
  }

  /** The bytes that four characters stand for, when the line has left more. */
  function ThreeBytes(d: seq<Byte>, left: nat): (b: seq<Byte>)
    requires |d| == 4
    ensures |b| == if left < 3 then left else 3
  {
    var v0, v1, v2, v3 := Value(d[0]), Value(d[1]), Value(d[2]), Value(d[3]);
    [v0 * 4 + v1 / 16, v1 % 16 * 16 + v2 / 4, v2 % 4 * 64 + v3][..if left < 3 then left else 3]
  }

  /** What comes after the end of a line. */
  function AfterEnd(s: seq<Byte>, strict: bool): (r: Option<seq<Byte>>)
    ensures r.Some? ==> |r.value| <= |s|
  {
    if s == [] then Some([])
    else if s[0] == NEWLINE then Some(s[1..])
    else if IsUu(s[0]) then Some(s)
    else if strict || !IsSpace(s[0]) then None
    else AfterEnd(s[1..], strict)
  }

  function Prepended(b: seq<Byte>, o: Outcome): Outcome {
    if o.Data? then Data(b + o.bytes) else o
  }

  /** What the rest of a text stands for; lineLen is how many bytes its line has left, or -1 where a line begins. */
  function DecodeFrom(s: seq<Byte>, lineLen: int, strict: bool): Outcome
    requires lineLen >= -1
    decreases |s|, 2
  {
    if s == [] then if lineLen > 0 && strict then Short else Data([])
    else if lineLen < 0 && !IsUu(s[0]) then
      if strict || !IsSpace(s[0]) then Bad else DecodeFrom(s[1..], lineLen, strict)
    else
      var left, text := if lineLen < 0 then Value(s[0]) else lineLen, if lineLen < 0 then s[1..] else s;
      DecodeLine(s, text, left, strict)
  }

  function DecodeLine(s: seq<Byte>, text: seq<Byte>, left: nat, strict: bool): Outcome
    requires s != [] && (|text| < |s| || text == s)
    decreases |s|, 1
  {
    match ReadFour(text, [], 0, strict)
    case BadChar => Bad
    case ShortLine => Short
    case Got(d, rest) => Prepended(ThreeBytes(d, left), DecodeMore(s, rest, if left < 3 then 0 else left - 3, strict))
  }

  /** What comes after four characters: more of the line, or the next line. */
  function DecodeMore(s: seq<Byte>, rest: seq<Byte>, left: nat, strict: bool): Outcome
    requires |rest| < |s|
    decreases |s|, 0
  {
    if left == 0 && rest != [] then
      var next := AfterEnd(rest, strict);
      if next.None? then Bad else DecodeFrom(next.value, -1, strict)
    else DecodeFrom(rest, left, strict)
  }

  /** The bytes that n characters can stand for. */
  ghost function BytesFrom(n: nat): nat {
    (n + 3) / 4 * 3
  }

  lemma BytesFromIs(n: nat)
    ensures BytesFrom(n) == (n + 3) / 4 * 4 * 3 / 4
  {
  }

  /** Decodes a text. */
  method Decode(data: seq<Byte>, strict: bool) returns (result: Outcome)
    ensures result == DecodeFrom(data, -1, strict)
  {
    hide BytesFrom, ReadFour, ThreeBytes, DecodeLine, DecodeMore, DecodeFrom, AfterEnd;
    var size := (|data| + 3) / 4 * 4 * 3 / 4;
    BytesFromIs(|data|);
    var buf := new Byte[size];
    var at: nat, cursor: nat, lineLen: int := 0, 0, -1;
    assert data[0..] == data;
    while at < |data|
      invariant at <= |data| && lineLen >= -1 && cursor + BytesFrom(|data| - at) <= size
      invariant DecodeFrom(data, -1, strict) == Prepended(buf[..cursor], DecodeFrom(data[at..], lineLen, strict))
      decreases |data| - at
    {
      ghost var was := buf[..cursor];
      FirstStep(data, at, lineLen, strict);
      var begun := at;
      if lineLen < 0 {
        var c := data[at];
        at := at + 1;
        if !IsUu(c) {
          if strict || !IsSpace(c) {
            return Bad;
          }
          FewerBytes(|data| - at, |data| - begun);
          continue;
        }
        lineLen := Value(c);
      }
      var g := DecodeFour(data, at, strict);
      match g {
        case BadChar =>
          return Bad;
        case ShortLine =>
          return Short;
        case Got(d, rest) =>
          ThreeFit(data, begun, at, |rest|, strict);
          ghost var left := lineLen;
          cursor, lineLen := WriteThree(buf, cursor, d, lineLen);
          at := |data| - |rest|;
          PrependTwice(was, ThreeBytes(d, left), DecodeMore(data[begun..], data[at..], lineLen, strict));
          DecodeMoreIs(data[begun..], data[at..], lineLen, strict);
          if lineLen == 0 && at < |data| {
            lineLen := -1;
            var next := SkipEnd(data, at, strict);
            if next.None? {
              return Bad;
            }
            FewerBytes(|data| - next.value, |data| - at);
            at := next.value;
          }
      }
    }
    AtTheEnd(data[at..], lineLen, strict);
    if lineLen > 0 && strict {
      return Short;
    }
    assert buf[..cursor] + [] == buf[..cursor];
    result := Data(buf[..cursor]);
  }

  lemma AtTheEnd(s: seq<Byte>, lineLen: int, strict: bool)
    requires lineLen >= -1 && s == []
    ensures DecodeFrom(s, lineLen, strict) == if lineLen > 0 && strict then Short else Data([])
  {
  }

  /** What the first character or the first four do. */
  lemma FirstStep(data: seq<Byte>, at: nat, lineLen: int, strict: bool)
    requires lineLen >= -1 && at < |data|
    ensures lineLen < 0 && !IsUu(data[at]) ==>
              DecodeFrom(data[at..], lineLen, strict) ==
                if strict || !IsSpace(data[at]) then Bad else DecodeFrom(data[at + 1..], lineLen, strict)
    ensures lineLen >= 0 || IsUu(data[at]) ==>
              var from, left := if lineLen < 0 then at + 1 else at, if lineLen < 0 then Value(data[at]) else lineLen;
              DecodeFrom(data[at..], lineLen, strict) ==
                match ReadFour(data[from..], [], 0, strict)
                case BadChar => Bad
                case ShortLine => Short
                case Got(d, rest) =>
                  Prepended(ThreeBytes(d, left), DecodeMore(data[at..], rest, if left < 3 then 0 else left - 3, strict))
  {
    hide ReadFour, ThreeBytes, DecodeMore;
    assert data[at..][1..] == data[at + 1..];
  }

  lemma DecodeMoreIs(s: seq<Byte>, rest: seq<Byte>, left: nat, strict: bool)
    requires |rest| < |s|
    ensures DecodeMore(s, rest, left, strict) ==
              if left > 0 || rest == [] then DecodeFrom(rest, left, strict)
              else if AfterEnd(rest, strict).None? then Bad else DecodeFrom(AfterEnd(rest, strict).value, -1, strict)
  {
    hide DecodeFrom, AfterEnd;
  }

  lemma PrependTwice(a: seq<Byte>, b: seq<Byte>, o: Outcome)
    ensures Prepended(a, Prepended(b, o)) == Prepended(a + b, o)
  {
    if o.Data? {
      assert a + (b + o.bytes) == a + b + o.bytes;
    }
  }

  /** Four characters are read before more are, so three bytes fit. */
  lemma ThreeFit(data: seq<Byte>, begun: nat, at: nat, rest: nat, strict: bool)
    requires begun < |data| && begun <= at <= |data| && rest <= |data| - at
    requires rest > 0 ==> rest + 4 <= |data| - at
    ensures BytesFrom(rest) + 3 <= BytesFrom(|data| - begun)
  {
  }

  lemma FewerBytes(m: nat, n: nat)
    requires m <= n
    ensures BytesFrom(m) <= BytesFrom(n)
  {
  }

  /** Reads up to four characters of the alphabet. */
  method DecodeFour(data: seq<Byte>, at: nat, strict: bool) returns (g: Quartet)
    requires at <= |data|
    ensures g == ReadFour(data[at..], [], 0, strict)
    ensures g.Got? ==> |g.rest| <= |data| - at && g.rest == data[|data| - |g.rest|..]
    ensures g.Got? && |g.rest| > 0 ==> |g.rest| + 4 <= |data| - at
  {
    var d: seq<Byte> := [0, 0, 0, 0];
    var next, i := at, 0;
    while i < 4
      invariant at <= next <= |data| && 0 <= i <= 4 && |d| == 4 && (next < |data| ==> at + i <= next)
      invariant forall j :: i < j < 4 ==> d[j] == 0
      invariant ReadFour(data[at..], [], 0, strict) == FourFrom(data[next..], d, i, strict)
      decreases |data| - next, 4 - i
    {
      if next < |data| {
        var c := data[next];
        OneOfFour(data[next..], d, i, strict);
        assert data[next..][1..] == data[next + 1..];
        d := d[i := c];
        next := next + 1;
        if !IsUu(c) {
          if strict {
            if !IsSpace(c) {
              return BadChar;
            } else if c == NEWLINE {
              return ShortLine;
            }
          }
          continue;
        }
      } else {
        NoneOfFour(data[next..], d, i, strict);
      }
      i := i + 1;
    }
    g := Got(d, data[next..]);
  }

  /** What is read when the first i characters of d have been, and the next holds what was passed over. */
  ghost function FourFrom(s: seq<Byte>, d: seq<Byte>, i: nat, strict: bool): Quartet
    requires |d| == 4 && i <= 4
  {
    if i == 4 then Got(d, s) else ReadFour(s, d[..i], d[i], strict)
  }

  lemma OneOfFour(s: seq<Byte>, d: seq<Byte>, i: nat, strict: bool)
    requires |d| == 4 && i < 4 && s != [] && forall j :: i < j < 4 ==> d[j] == 0
    ensures var e, g := d[i := s[0]], FourFrom(s, d, i, strict);
            if IsUu(s[0]) then g == FourFrom(s[1..], e, i + 1, strict)
            else if strict && !IsSpace(s[0]) then g == BadChar
            else if strict && s[0] == NEWLINE then g == ShortLine
            else g == FourFrom(s[1..], e, i, strict)
  {
    var e := d[i := s[0]];
    assert e[..i] == d[..i] && e[..i + 1] == d[..i] + [s[0]];
    if IsUu(s[0]) {
      assert ReadFour(s, d[..i], d[i], strict) == ReadFour(s[1..], e[..i + 1], 0, strict);
      assert i < 3 ==> e[i + 1] == 0;
      assert i == 3 ==> e[..4] == e;
    }
  }

  /** At the end of the text what is left out keeps what it held. */
  lemma NoneOfFour(s: seq<Byte>, d: seq<Byte>, i: nat, strict: bool)
    requires |d| == 4 && i < 4 && s == [] && forall j :: i < j < 4 ==> d[j] == 0
    ensures FourFrom(s, d, i, strict) == Got(d, []) == FourFrom(s, d, i + 1, strict)
  {
    assert d == d[..i] + [d[i]] + seq(3 - i, _ => 0);
    assert i < 3 ==> d == d[..i + 1] + [d[i + 1]] + seq(2 - i, _ => 0);
  }

  /** Writes as many of the three bytes as the line has left. */
  method WriteThree(buf: array<Byte>, cursor0: nat, d: seq<Byte>, lineLen0: nat) returns (cursor: nat, lineLen: nat)
    requires |d| == 4 && cursor0 + 3 <= buf.Length
    modifies buf
    ensures lineLen == (if lineLen0 < 3 then 0 else lineLen0 - 3) && cursor0 <= cursor <= cursor0 + 3
    ensures buf[..cursor] == old(buf[..cursor0]) + ThreeBytes(d, lineLen0)
  {
    var v0, v1, v2, v3 := Value(d[0]), Value(d[1]), Value(d[2]), Value(d[3]);
    Combined(v0, v1, v2, v3);
    cursor, lineLen := cursor0, lineLen0;
    if lineLen > 0 {
      cursor := Write(buf, cursor, v0 * 4 + v1 / 16);
      lineLen := lineLen - 1;
      if lineLen > 0 {
        cursor := Write(buf, cursor, Low(v1 * 16) + v2 / 4);
        lineLen := lineLen - 1;
        if lineLen > 0 {
          cursor := Write(buf, cursor, Low(v2 * 64) + v3);
          lineLen := lineLen - 1;
        }
      }
    }
  }

  lemma Combined(v0: nat, v1: nat, v2: nat, v3: nat)
    requires v0 < 64 && v1 < 64 && v2 < 64 && v3 < 64
    ensures v0 * 4 + v1 / 16 < 0x100
    ensures Low(v1 * 16) == v1 % 16 * 16 && v1 % 16 * 16 + v2 / 4 < 0x100
    ensures Low(v2 * 64) == v2 % 4 * 64 && v2 % 4 * 64 + v3 < 0x100
  {
  }

  /** Skips the end of a line; gives where the next begins. */
  method SkipEnd(data: seq<Byte>, at0: nat, strict: bool) returns (next: Option<nat>)
    requires at0 < |data|
    ensures next.Some? ==> at0 <= next.value <= |data|
    ensures AfterEnd(data[at0..], strict) == if next.None? then None else Some(data[next.value..])
  {
    var at := at0;
    while true
      invariant at0 <= at < |data|
      invariant AfterEnd(data[at0..], strict) == AfterEnd(data[at..], strict)
      decreases |data| - at
    {
      ghost var s := data[at..];
      assert s[1..] == data[at + 1..];
      var c := data[at];
      at := at + 1;
      if c == NEWLINE {
        return Some(at);
      } else if IsUu(c) {
        at := at - 1;
        return Some(at);
      } else if strict || !IsSpace(c) {
        return None;
      }
      if at == |data| {
        return Some(at);
      }
    }
  }

  // ---------------------------------------------------------------- round trip

  /** What is neither in the alphabet nor refused between lines. */
  ghost predicate White(w: seq<Byte>) {
    forall i :: 0 <= i < |w| ==> 9 <= w[i] <= 13
  }

  ghost predicate AllUu(q: seq<Byte>) {
    forall i :: 0 <= i < |q| ==> IsUu(q[i])
  }

  lemma {:induction false} DigitsRead(q: seq<Byte>, tail: seq<Byte>, d: seq<Byte>, over: Byte, strict: bool)
    requires |d| + |q| <= 4 && AllUu(q)
    ensures ReadFour(q + tail, d, over, strict) == ReadFour(tail, d + q, if q == [] then over else 0, strict)
    decreases |q|
  {
    if q == [] {
      assert q + tail == tail && d + q == d;
    } else {
      assert (q + tail)[1..] == q[1..] + tail;
      assert d + [q[0]] + q[1..] == d + q;
      DigitsRead(q[1..], tail, d + [q[0]], 0, strict);
    }
  }

  lemma {:induction false} WhiteRead(w: seq<Byte>, d: seq<Byte>, over: Byte)
    requires |d| < 4 && White(w)
    ensures var g := ReadFour(w, d, over, false);
            g.Got? && g.rest == [] && g.d[..|d|] == d
    decreases |w|
  {
    if w != [] {
      WhiteRead(w[1..], d, w[0]);
    }
  }

  lemma {:induction false} WhiteSkipped(w: seq<Byte>, rest: seq<Byte>)
    requires White(w)
    ensures DecodeFrom(w + rest, -1, false) == DecodeFrom(rest, -1, false)
    decreases |w|
  {
    if w == [] {
      assert w + rest == rest;
    } else {
      assert (w + rest)[1..] == w[1..] + rest;
      WhiteSkipped(w[1..], rest);
    }
  }

  /** What comes after the last byte of a line. */
  function After(tail: seq<Byte>, strict: bool): Outcome {
    if tail == [] then Data([])
    else if AfterEnd(tail, strict).None? then Bad
    else DecodeFrom(AfterEnd(tail, strict).value, -1, strict)
  }

  ghost predicate Begins(rest: seq<Byte>) {
    rest == [] || IsUu(rest[0])
  }

  lemma {:induction false} AfterWhite(w: seq<Byte>, rest: seq<Byte>)
    requires White(w) && Begins(rest)
    ensures After(w + rest, false) == DecodeFrom(rest, -1, false)
    decreases |w|
  {
    if w == [] {
      assert w + rest == rest;
    } else {
      assert (w + rest)[1..] == w[1..] + rest;
      if w[0] == NEWLINE {
        WhiteSkipped(w[1..], rest);
      } else {
        AfterWhite(w[1..], rest);
        AfterSkips(w + rest);
      }
    }
  }

  lemma AfterSkips(s: seq<Byte>)
    requires s != [] && 9 <= s[0] <= 13 && s[0] != NEWLINE
    ensures After(s, false) == After(s[1..], false)
  {
    assert AfterEnd(s, false) == AfterEnd(s[1..], false);
    AtTheEnd([], -1, false);
  }

  lemma AfterNewline(rest: seq<Byte>, strict: bool)
    ensures After([NEWLINE] + rest, strict) == DecodeFrom(rest, -1, strict)
  {
    assert ([NEWLINE] + rest)[1..] == rest;
  }

  /** The characters of a line from the q-th group of three bytes on. */
  ghost function Part(b: seq<Byte>, q: nat): (s: seq<Byte>)
    requires 3 * q <= |b|
    ensures AllUu(s)
  {
    SixesAre(|b|);
    Chars(b, Sixes(|b|))[4 * q..]
  }

  lemma SixesBack(d0: int, d1: int, d2: int)
    requires 0 <= d0 < 0x100 && 0 <= d1 < 0x100 && 0 <= d2 < 0x100
    ensures var v0, v1, v2, v3 := d0 / 4, d0 % 4 * 16 + d1 / 16, d1 % 16 * 4 + d2 / 64, d2 % 64;
            v0 * 4 + v1 / 16 == d0 && v1 % 16 * 16 + v2 / 4 == d1 && v2 % 4 * 64 + v3 == d2
  {
  }

  lemma DigitBack(b: seq<Byte>, q: nat, d: seq<Byte>, left: nat, j: nat)
    requires |d| == 4 && j < 4 && j <= left && forall j: nat :: j < 4 && j <= left ==> d[j] == Digit(SixAt(b, 4 * q + j))
    ensures Value(d[j]) == SixAt(b, 4 * q + j)
  {
    hide Digit, SixAt, Value;
    ValueOfDigit(SixAt(b, 4 * q + j));
  }

  /** The digits of a group give back its bytes. */
  lemma BytesBack(b: seq<Byte>, q: nat, d: seq<Byte>, left: nat)
    requires |d| == 4 && left == |b| - 3 * q && left > 0
    requires forall j: nat :: j < 4 && j <= left ==> d[j] == Digit(SixAt(b, 4 * q + j))
    ensures ThreeBytes(d, left) == b[3 * q..3 * q + if left < 3 then left else 3]
  {
    hide Digit, SixAt, Value, At;
    SixOfGroup(b, q);
    SixesBack(At(b, 3 * q), At(b, 3 * q + 1), At(b, 3 * q + 2));
    DigitBack(b, q, d, left, 0);
    DigitBack(b, q, d, left, 1);
    AtLine(b, 3 * q);
    if left >= 2 {
      DigitBack(b, q, d, left, 2);
      AtLine(b, 3 * q + 1);
    }
    if left >= 3 {
      DigitBack(b, q, d, left, 3);
      AtLine(b, 3 * q + 2);
    }
    ThreeAre(d, left, b[3 * q..3 * q + if left < 3 then left else 3]);
  }

  lemma ThreeAre(d: seq<Byte>, left: nat, b: seq<Byte>)
    requires |d| == 4 && |b| == if left < 3 then left else 3
    requires left > 0 ==> b[0] == Value(d[0]) * 4 + Value(d[1]) / 16
    requires left > 1 ==> b[1] == Value(d[1]) % 16 * 16 + Value(d[2]) / 4
    requires left > 2 ==> b[2] == Value(d[2]) % 4 * 64 + Value(d[3])
    ensures ThreeBytes(d, left) == b
  {
    hide Value;
  }

  lemma LineBegins(b: seq<Byte>, tail: seq<Byte>, strict: bool)
    requires 0 < |b| < 64
    ensures DecodeFrom(Line(b) + tail, -1, strict) == DecodeFrom(Part(b, 0) + tail, |b|, strict)
  {
    hide ReadFour, ThreeBytes, DecodeMore, Digit, Value;
    ValueOfDigit(|b|);
    SixesAre(|b|);
    var s := Line(b) + tail;
    assert s[1..] == Part(b, 0) + tail;
    FirstStep(s, 0, -1, strict);
    FirstStep(s, 1, |b|, strict);
    assert s[0..] == s;
    assert forall rest: seq<Byte>, left: nat :: |rest| < |s[1..]| ==>
      DecodeMore(s, rest, left, strict) == DecodeMore(s[1..], rest, left, strict) by {
      forall rest: seq<Byte>, left: nat | |rest| < |s[1..]|
        ensures DecodeMore(s, rest, left, strict) == DecodeMore(s[1..], rest, left, strict)
      {
        DecodeMoreIs(s, rest, left, strict);
        DecodeMoreIs(s[1..], rest, left, strict);
      }
    }
  }

  lemma GroupBytes(b: seq<Byte>, q: nat, tail: seq<Byte>, strict: bool)
    requires 3 * q + 3 <= |b|
    ensures |Part(b, q)| >= 4
    ensures var d, rest := Part(b, q)[..4], Part(b, q)[4..] + tail;
            && ReadFour(Part(b, q) + tail, [], 0, strict) == Got(d, rest)
            && ThreeBytes(d, |b| - 3 * q) == b[3 * q..3 * q + 3]
  {
    hide ReadFour, ThreeBytes, Digit, SixAt, IsUu;
    SixesAre(|b|);
    var d, rest := Part(b, q)[..4], Part(b, q)[4..] + tail;
    assert Part(b, q) + tail == d + rest;
    DigitsRead(d, rest, [], 0, strict);
    assert [] + d == d;
    FullQuartet(rest, d, strict);
    BytesBack(b, q, d, |b| - 3 * q);
  }

  /** A whole group of a line gives its three bytes. */
  lemma GroupRead(b: seq<Byte>, q: nat, tail: seq<Byte>, strict: bool)
    requires 3 * q + 3 <= |b|
    ensures DecodeFrom(Part(b, q) + tail, |b| - 3 * q, strict) ==
            Prepended(b[3 * q..3 * q + 3], if |b| == 3 * q + 3 then After(tail, strict)
                                           else DecodeFrom(Part(b, q + 1) + tail, |b| - 3 * q - 3, strict))
  {
    hide ReadFour, ThreeBytes, DecodeMore, DecodeFrom, After, Part, Prepended;
    GroupBytes(b, q, tail, strict);
    var s, left := Part(b, q) + tail, |b| - 3 * q;
    var rest := Part(b, q)[4..] + tail;
    assert s[0..] == s;
    FirstStep(s, 0, left, strict);
    PartLater(b, q);
    if left == 3 {
      assert rest == tail;
      MoreAfterEnd(s, rest, strict);
    } else {
      DecodeMoreIs(s, rest, left - 3, strict);
    }
  }

  lemma PartLater(b: seq<Byte>, q: nat)
    requires 3 * q + 3 <= |b|
    ensures |Part(b, q)| >= 4 && Part(b, q)[4..] == Part(b, q + 1)
    ensures |b| == 3 * q + 3 ==> Part(b, q + 1) == []
  {
    hide Digit, SixAt;
    SixesAre(|b|);
  }

  lemma MoreAfterEnd(s: seq<Byte>, rest: seq<Byte>, strict: bool)
    requires |rest| < |s|
    ensures DecodeMore(s, rest, 0, strict) == After(rest, strict)
  {
    DecodeMoreIs(s, rest, 0, strict);
    AtTheEnd([], 0, strict);
  }

  lemma FullQuartet(s: seq<Byte>, d: seq<Byte>, strict: bool)
    requires |d| == 4
    ensures ReadFour(s, d, 0, strict) == Got(d, s)
  {
  }

  /** A line of whole groups gives its bytes. */
  lemma {:induction false} WholeLine(b: seq<Byte>, q: nat, tail: seq<Byte>, strict: bool)
    requires 3 * q < |b| && |b| % 3 == 0
    ensures DecodeFrom(Part(b, q) + tail, |b| - 3 * q, strict) == Prepended(b[3 * q..], After(tail, strict))
    decreases |b| - 3 * q
  {
    hide DecodeFrom, After, Part;
    GroupRead(b, q, tail, strict);
    if |b| == 3 * q + 3 {
      assert b[3 * q..3 * q + 3] == b[3 * q..];
    } else {
      WholeLine(b, q + 1, tail, strict);
      PrependTwice(b[3 * q..3 * q + 3], b[3 * q + 3..], After(tail, strict));
      assert b[3 * q..] == b[3 * q..3 * q + 3] + b[3 * q + 3..];
    }
  }

  /** The last group of a line that is not whole. */
  lemma LastGroup(b: seq<Byte>, q: nat, w: seq<Byte>)
    requires |b| - 3 < 3 * q < |b| && White(w)
    ensures DecodeFrom(Part(b, q) + w, |b| - 3 * q, false) == Data(b[3 * q..])
  {
    hide ReadFour, ThreeBytes, DecodeMore, DecodeFrom, Digit, SixAt, White, IsUu;
    var part, left := Part(b, q), |b| - 3 * q;
    var s := part + w;
    PartIs(b, q);
    DigitsRead(part, w, [], 0, false);
    assert [] + part == part;
    WhiteRead(w, part, 0);
    var d := ReadFour(w, part, 0, false).d;
    LastBytes(b, q, d);
    assert s[0..] == s;
    FirstStep(s, 0, left, false);
    DecodeMoreIs(s, [], 0, false);
    AtTheEnd([], 0, false);
    assert b[3 * q..] + [] == b[3 * q..];
  }

  lemma PartIs(b: seq<Byte>, q: nat)
    requires |b| - 3 < 3 * q < |b|
    ensures |Part(b, q)| == |b| - 3 * q + 1
    ensures forall j: nat :: j < |Part(b, q)| ==> Part(b, q)[j] == Digit(SixAt(b, 4 * q + j))
  {
    hide Digit, SixAt;
    SixesAre(|b|);
  }

  lemma LastBytes(b: seq<Byte>, q: nat, d: seq<Byte>)
    requires |b| - 3 < 3 * q < |b| && |d| == 4 && d[..|Part(b, q)|] == Part(b, q)
    ensures ThreeBytes(d, |b| - 3 * q) == b[3 * q..]
  {
    hide Digit, SixAt, ThreeBytes, Part;
    PartIs(b, q);
    assert forall j: nat :: j < |Part(b, q)| ==> d[j] == d[..|Part(b, q)|][j];
    BytesBack(b, q, d, |b| - 3 * q);
    assert b[3 * q..|b|] == b[3 * q..];
  }

  /** The same, for a strict reader. */
  lemma StrictLastGroup(b: seq<Byte>, q: nat)
    requires |b| - 3 < 3 * q < |b|
    ensures DecodeFrom(Part(b, q) + [NEWLINE], |b| - 3 * q, true) == Short
  {
    hide ReadFour, ThreeBytes, DecodeMore, DecodeFrom, Digit, SixAt, IsUu;
    var part := Part(b, q);
    var s := part + [NEWLINE];
    PartIs(b, q);
    DigitsRead(part, [NEWLINE], [], 0, true);
    assert [] + part == part && s[0..] == s;
    NewlineRead(part);
    FirstStep(s, 0, |b| - 3 * q, true);
  }

  lemma NewlineRead(d: seq<Byte>)
    requires |d| < 4
    ensures ReadFour([NEWLINE], d, 0, true) == ShortLine
  {
  }

  /** A last line that is not whole groups gives its bytes, but not to a strict reader. */
  lemma {:induction false} LastLine(b: seq<Byte>, q: nat, w: seq<Byte>, strict: bool)
    requires 3 * q < |b| && |b| % 3 != 0 && if strict then w == [NEWLINE] else White(w)
    ensures DecodeFrom(Part(b, q) + w, |b| - 3 * q, strict) == if strict then Short else Data(b[3 * q..])
    decreases |b| - 3 * q
  {
    hide DecodeFrom, After, Part, White;
    if |b| < 3 * q + 3 {
      if strict {
        StrictLastGroup(b, q);
      } else {
        LastGroup(b, q, w);
      }
    } else {
      GroupRead(b, q, w, strict);
      LastLine(b, q + 1, w, strict);
      assert b[3 * q..] == b[3 * q..3 * q + 3] + b[3 * q + 3..];
    }
  }

  lemma PrependedIs(b: seq<Byte>, c: seq<Byte>)
    ensures Prepended(b, Data(c)) == Data(b + c) && Prepended(b, Short) == Short
  {
  }

  lemma EncodedBegins(data: seq<Byte>, raw: nat, wrap: seq<Byte>)
    requires 0 < raw < 64
    ensures Begins(Encoded(data, raw, wrap))
  {
  }

  /**
   * Decoding undoes encoding, for every length of line and every line end
   * that is made of blanks and newlines. A strict reader takes lines that end
   * with a newline just if the last one is of whole groups.
   */
  lemma {:induction false} Decoded(data: seq<Byte>, raw: nat, wrap: seq<Byte>, strict: bool)
    requires 0 < raw < 64 && raw % 3 == 0 && if strict then wrap == [NEWLINE] else White(wrap)
    ensures DecodeFrom(Encoded(data, raw, wrap), -1, strict) == if strict && |data| % 3 != 0 then Short else Data(data)
    decreases |data|
  {
    hide DecodeFrom, After, Part, White, Line, Encoded, Prepended;
    if data == [] {
      NothingLeft(data, raw, wrap);
      AtTheEnd([], -1, strict);
    } else {
      var n := if |data| > raw then raw else |data|;
      var b, rest := data[..n], Encoded(data[n..], raw, wrap);
      FirstLine(data, 0, raw, wrap);
      assert data[0..] == data && data[0..n] == b;
      assert Line(b) + wrap + rest == Line(b) + (wrap + rest);
      LineBegins(b, wrap + rest, strict);
      if n % 3 == 0 {
        WholeLine(b, 0, wrap + rest, strict);
        EncodedBegins(data[n..], raw, wrap);
        if strict {
          AfterNewline(rest, strict);
        } else {
          AfterWhite(wrap, rest);
        }
        Decoded(data[n..], raw, wrap, strict);
        assert b + data[n..] == data && b[0..] == b;
        PrependedIs(b, data[n..]);
      } else {
        NothingLeft(data[n..], raw, wrap);
        assert wrap + rest == wrap && b == data && b[0..] == b;
        LastLine(b, 0, wrap, strict);
      }
    }
  }

  /** Every documented line end gives back the data. */
  lemma RoundTrip(data: seq<Byte>, maxlen: nat, wrap: seq<Byte>)
    requires 5 <= maxlen <= 85 && Documented(wrap)
    ensures DecodeFrom(Encoded(data, RawLength(maxlen), wrap), -1, false) == Data(data)
  {
    RawLengthFits(maxlen);
    var n: nat :| BlankTo(wrap, n) && |wrap| <= n + 1;
    assert White(wrap);
    Decoded(data, RawLength(maxlen), wrap, false);
  }

  /** With the default line end, the encoder's own result is refused by a strict reader just if the data is not whole groups. */
  lemma StrictRoundTrip(data: seq<Byte>, maxlen: nat)
    requires 5 <= maxlen <= 85
    ensures DecodeFrom(Encoded(data, RawLength(maxlen), [NEWLINE]), -1, true) == Data(data) <==> |data| % 3 == 0
  {
    RawLengthFits(maxlen);
    Decoded(data, RawLength(maxlen), [NEWLINE], true);
  }

  /** A line end that is let through although it is not documented, and what becomes of three bytes with it. */
  lemma LineEndLost()
    ensures var wrap := [NEWLINE, 65];
            && Accepted(wrap) && !Documented(wrap)
            && DecodeFrom(Encoded([0, 0, 0], 45, wrap), -1, false) != Data([0, 0, 0])
  {
    hide Line, DecodeFrom, After, Part, Encoded;
    var b: seq<Byte>, wrap: seq<Byte> := [0, 0, 0], [NEWLINE] + [65];
    assert wrap == [NEWLINE, 65] && BlankTo(wrap, 0);
    DocumentedIs(wrap);
    assert wrap[0] == NEWLINE && 0 < |wrap| - 1;
    FirstLine(b, 0, 45, wrap);
    NothingLeft(b[3..], 45, wrap);
    assert b[0..] == b && b[0..3] == b && Line(b) + wrap + [] == Line(b) + wrap;
    LineBegins(b, wrap, false);
    WholeLine(b, 0, wrap, false);
    AfterNewline([65], false);
    LengthOnly();
  }

  /** A line that is only a length still gives bytes. */
  lemma LengthOnly()
    ensures DecodeFrom([65], -1, false).Data? && |DecodeFrom([65], -1, false).bytes| == 3
  {
    hide DecodeFrom;
    FirstStep([65], 0, -1, false);
    assert Value(65) == 33;
    var none: seq<Byte> := [65][1..];
    assert none == [];
    assert ReadFour(none, [], 0, false).Got?;
    assert [65][0..] == [65];
    DecodeMoreIs([65], none, 30, false);
    AtTheEnd(none, 30, false);
  }
}
