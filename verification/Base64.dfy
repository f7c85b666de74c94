/** The base64 encoder and decoder (section 4 of RFC 4648, with lines of any length). */
module Base64 {
  import opened Bytes

  datatype Option<T> = None | Some(value: T)

  // ---------------------------------------------------------------- the alphabet

  const PAD: Byte := 61

  /** The character for six bits: A-Z, a-z, 0-9, + and /. */
  function Digit(v: int): (c: Byte)
    requires 0 <= v < 64
    ensures c != PAD
  {
    if v < 26 then 65 + v else if v < 52 then 97 + (v - 26) else if v < 62 then 48 + (v - 52) else if v == 62 then 43 else 47
  }

  /** The six bits of a character. */
  function Value(c: Byte): (v: Option<int>)
    ensures v.Some? ==> 0 <= v.value < 64 && c != PAD
  {
    if 65 <= c <= 90 then Some(c - 65)
    else if 97 <= c <= 122 then Some(c - 97 + 26)
    else if 48 <= c <= 57 then Some(c - 48 + 52)
    else if c == 43 then Some(62)
    else if c == 47 then Some(63)
    else None
  }

  lemma ValueOfDigit(v: int)
    requires 0 <= v < 64
    ensures Value(Digit(v)) == Some(v)
  {
  }

  // ---------------------------------------------------------------- the characters for some data

  /** The characters that stand for the data, padded to a multiple of four. */
  ghost function Chars(data: seq<Byte>): (s: seq<Byte>)
    ensures |s| == (|data| + 2) / 3 * 4
  {
    if data == [] then []
    else if |data| == 1 then [Digit(data[0] / 4), Digit(data[0] % 4 * 16), PAD, PAD]
    else if |data| == 2 then [Digit(data[0] / 4), Digit(data[0] % 4 * 16 + data[1] / 16), Digit(data[1] % 16 * 4), PAD]
    else
      [Digit(data[0] / 4), Digit(data[0] % 4 * 16 + data[1] / 16), Digit(data[1] % 16 * 4 + data[2] / 64), Digit(data[2] % 64)]
      + Chars(data[3..])
  }

  /** The characters in lines of maxlen, with wrap between them; maxlen 0 is one line. */
  ghost function Lines(s: seq<Byte>, maxlen: nat, wrap: seq<Byte>): seq<Byte>
    decreases |s|
  {
    if maxlen == 0 || |s| <= maxlen then s else s[..maxlen] + wrap + Lines(s[maxlen..], maxlen, wrap)
  }

  /** The same for characters that more will follow. */
  ghost function Open(s: seq<Byte>, maxlen: nat, wrap: seq<Byte>): seq<Byte>
    decreases |s|
  {
    if maxlen == 0 || |s| < maxlen then s else s[..maxlen] + wrap + Open(s[maxlen..], maxlen, wrap)
  }

  /** How many characters the last line has, of characters that more will follow. */
  ghost function OnLine(n: nat, maxlen: nat): (k: nat)
    ensures maxlen > 0 ==> k < maxlen
    decreases n
  {
    if maxlen == 0 || n < maxlen then n else OnLine(n - maxlen, maxlen)
  }

  /** One more character, and the end of the line if it is full. */
  lemma {:induction false} OpenMore(s: seq<Byte>, c: Byte, maxlen: nat, wrap: seq<Byte>)
    ensures Open(s + [c], maxlen, wrap) ==
      Open(s, maxlen, wrap) + [c] + if maxlen > 0 && OnLine(|s|, maxlen) + 1 == maxlen then wrap else []
    ensures maxlen > 0 ==> OnLine(|s| + 1, maxlen) == if OnLine(|s|, maxlen) + 1 == maxlen then 0 else OnLine(|s|, maxlen) + 1
    decreases |s|
  {
    if maxlen > 0 && |s| >= maxlen {
      OpenMore(s[maxlen..], c, maxlen, wrap);
      assert (s + [c])[maxlen..] == s[maxlen..] + [c];
      assert (s + [c])[..maxlen] == s[..maxlen];
    } else if maxlen > 0 && |s| + 1 == maxlen {
      assert (s + [c])[..maxlen] == s + [c] && (s + [c])[maxlen..] == [];
    }
  }

  /** The last character ends the last line. */
  lemma {:induction false} LinesLast(s: seq<Byte>, c: Byte, maxlen: nat, wrap: seq<Byte>)
    ensures Lines(s + [c], maxlen, wrap) == Open(s, maxlen, wrap) + [c]
    decreases |s|
  {
    if maxlen > 0 && |s| >= maxlen {
      LinesLast(s[maxlen..], c, maxlen, wrap);
      assert (s + [c])[maxlen..] == s[maxlen..] + [c];
      assert (s + [c])[..maxlen] == s[..maxlen];
    }
  }

  lemma {:induction false} OpenGrows(s: seq<Byte>, t: seq<Byte>, maxlen: nat, wrap: seq<Byte>)
    ensures |Open(s, maxlen, wrap)| + |t| <= |Open(s + t, maxlen, wrap)|
    decreases |t|
  {
    if t == [] {
      assert s + t == s;
    } else {
      OpenMore(s, t[0], maxlen, wrap);
      OpenGrows(s + [t[0]], t[1..], maxlen, wrap);
      assert s + [t[0]] + t[1..] == s + t;
    }
  }

  // ---------------------------------------------------------------- the size of the result

  ghost function Padded(count: nat): nat {
    (count * 4 / 3 + 3) / 4 * 4
  }

  lemma PaddedIs(count: nat)
    ensures Padded(count) == (count + 2) / 3 * 4
  {
    var q, r := count / 3, count % 3;
    assert count * 4 == (4 * q) * 3 + 4 * r;
    assert count * 4 / 3 == 4 * q + 4 * r / 3;
  }

  /** The size computed beforehand for n characters. */
  ghost function FullSize(n: nat, maxlen: nat, wrapLen: nat): int {
    if maxlen > 0 && n > maxlen then n + wrapLen * (n / maxlen) - (if n % maxlen == 0 then wrapLen else 0) else n
  }

  lemma {:induction false} LinesSize(s: seq<Byte>, maxlen: nat, wrap: seq<Byte>)
    ensures |Lines(s, maxlen, wrap)| == FullSize(|s|, maxlen, |wrap|)
    decreases |s|
  {
    if maxlen > 0 && |s| > maxlen {
      LinesSize(s[maxlen..], maxlen, wrap);
      OneLineLess(|s|, maxlen, |wrap|);
    }
  }

  lemma OneLineLess(n: nat, maxlen: nat, wrapLen: nat)
    requires maxlen > 0 && n > maxlen
    ensures FullSize(n, maxlen, wrapLen) == maxlen + wrapLen + FullSize(n - maxlen, maxlen, wrapLen)
  {
    var m := n - maxlen;
    DropOne(m, maxlen);
    var q := m / maxlen;
    assert wrapLen * (q + 1) == wrapLen * q + wrapLen;
    if m <= maxlen {
      assert m < maxlen ==> q == 0;
      assert m == maxlen ==> q == 1 && m % maxlen == 0;
      assert wrapLen * 0 == 0;
    }
  }

  // ---------------------------------------------------------------- encoding

  /** The buffer that the encoder fills. */
  class Output {
    const maxlen: nat
    const wrap: seq<Byte>
    var buf: array<Byte>
    var cursor: nat
    var outindex: nat
    /** All the characters there will be, and how many of them have been written. */
    ghost const all: seq<Byte>
    ghost var done: nat

    ghost predicate Valid()
      reads this, buf
    {
      && done <= |all| && buf.Length == |Lines(all, maxlen, wrap)| && cursor <= buf.Length
      && (done < |all| ==> outindex == OnLine(done, maxlen))
      && buf[..cursor] == if done < |all| then Open(all[..done], maxlen, wrap) else Lines(all, maxlen, wrap)
    }

    constructor (size: nat, maxlen: nat, wrap: seq<Byte>, ghost all: seq<Byte>)
      requires size == |Lines(all, maxlen, wrap)| && all != []
      ensures Valid() && done == 0 && this.all == all && this.maxlen == maxlen && this.wrap == wrap
      ensures fresh(buf)
    {
      this.maxlen, this.wrap, this.all := maxlen, wrap, all;
      buf := new Byte[size];
      cursor, outindex, done := 0, 0, 0;
    }

    /** Writes one character and, when the line is full and not the last, what separates lines: the limit is never hit. */
    method Put(c: Byte)
      requires Valid() && done < |all| && c == all[done]
      modifies this`cursor, this`outindex, this`done, buf
      ensures Valid() && done == old(done) + 1 && buf == old(buf)
      ensures cursor <= buf.Length
    {
      hide Lines, Open;
      PutFits(all, done, maxlen, wrap);
      assert all[..|all|] == all;
      if done + 1 < |all| {
        PutMore(all, done, maxlen, wrap);
      }
      ghost var was := buf[..cursor];
      buf[cursor] := c;
      assert buf[..cursor] == was;
      cursor := cursor + 1;
      assert buf[..cursor] == was + [c];
      outindex := outindex + 1;
      if maxlen > 0 && cursor != buf.Length {
        if outindex == maxlen {
          CopyWrap();
          outindex := 0;
        }
      }
      done := done + 1;
    }

    method CopyWrap()
      requires cursor + |wrap| <= buf.Length
      modifies this`cursor, buf
      ensures cursor == old(cursor) + |wrap| && buf[..cursor] == old(buf[..cursor]) + wrap
    {
      var i := 0;
      while i < |wrap|
        invariant 0 <= i <= |wrap| && cursor == old(cursor)
        invariant buf[..cursor + i] == old(buf[..cursor]) + wrap[..i]
      {
        buf[cursor + i] := wrap[i];
        i := i + 1;
      }
      assert wrap[..i] == wrap;
      cursor := cursor + |wrap|;
    }
  }

  /** Where a character goes there is room for it; the last one ends the result. */
  lemma PutFits(all: seq<Byte>, done: nat, maxlen: nat, wrap: seq<Byte>)
    requires done < |all|
    ensures var o, full := Open(all[..done], maxlen, wrap), Lines(all, maxlen, wrap);
            |o| < |full| && (done + 1 == |all| ==> full == o + [all[done]])
  {
    hide Lines, Open;
    var n := |all| - 1;
    assert all == all[..n] + [all[n]];
    LinesLast(all[..n], all[n], maxlen, wrap);
    OpenGrows(all[..done], all[done..n], maxlen, wrap);
    assert all[..done] + all[done..n] == all[..n];
  }

  /** After a character that is not the last there is room for the separator, and more. */
  lemma PutMore(all: seq<Byte>, done: nat, maxlen: nat, wrap: seq<Byte>)
    requires done + 1 < |all|
    ensures var o, more, full := Open(all[..done], maxlen, wrap), Open(all[..done + 1], maxlen, wrap), Lines(all, maxlen, wrap);
            && more == o + [all[done]] + (if maxlen > 0 && OnLine(done, maxlen) + 1 == maxlen then wrap else [])
            && |more| < |full|
    ensures maxlen > 0 ==> OnLine(done + 1, maxlen) == if OnLine(done, maxlen) + 1 == maxlen then 0 else OnLine(done, maxlen) + 1
  {
    hide Lines, Open, OnLine;
    assert all[..done + 1] == all[..done] + [all[done]];
    OpenMore(all[..done], all[done], maxlen, wrap);
    PutFits(all, done + 1, maxlen, wrap);
  }

  /** The characters for the three bytes from offset on, where missing ones count as zero. */
  ghost function Quad(data: seq<Byte>, offset: nat): (s: seq<Byte>)
    requires offset < |data|
    ensures |s| == 4
  {
    var d0 := data[offset];
    var d1 := if offset + 1 < |data| then data[offset + 1] else 0;
    var d2 := if offset + 2 < |data| then data[offset + 2] else 0;
    [Digit(d0 / 4), Digit(d0 % 4 * 16 + d1 / 16),
     if offset + 1 < |data| then Digit(d1 % 16 * 4 + d2 / 64) else PAD,
     if offset + 2 < |data| then Digit(d2 % 64) else PAD]
  }

  /** The data's characters are those of its three-byte groups. */
  lemma {:induction false} CharsAt(data: seq<Byte>, offset: nat, i: nat)
    requires offset % 3 == 0 && offset < |data| && i < 4
    ensures offset / 3 * 4 + i < |Chars(data)| && Chars(data)[offset / 3 * 4 + i] == Quad(data, offset)[i]
    decreases |data|
  {
    hide Digit;
    if offset >= 3 {
      var rest := data[3..];
      CharsAt(rest, offset - 3, i);
      QuadLater(data, offset);
      var k: nat := (offset - 3) / 3 * 4 + i;
      assert Chars(data)[k + 4] == Chars(rest)[k];
    }
  }

  lemma QuadLater(data: seq<Byte>, offset: nat)
    requires 3 <= offset < |data|
    ensures Quad(data[3..], offset - 3) == Quad(data, offset)
  {
    hide Digit;
  }

  /** Encodes bytes, in lines of maxlen characters with wrap between them. */
  method Encode(data: seq<Byte>, maxlen0: nat, wrap: seq<Byte>) returns (result: seq<Byte>)
    ensures result == Lines(Chars(data), if wrap == [] then 0 else maxlen0, wrap)
  {
    var maxlen := if |wrap| == 0 then 0 else maxlen0;
    var count := |data|;
    if count == 0 {
      return [];
    }
    var size: int := (count * 4 / 3 + 3) / 4 * 4;
    PaddedIs(count);
    LinesSize(Chars(data), maxlen, wrap);
    if maxlen > 0 && size > maxlen {
      var adjusted := size + |wrap| * (size / maxlen);
      if size % maxlen == 0 {
        adjusted := adjusted - |wrap|;
      }
      size := adjusted;
    }
    result := EncodeGroups(data, size, maxlen, wrap);
  }

  /** Writes the characters for all the data into a buffer of just the right size. */
  method EncodeGroups(data: seq<Byte>, size: int, maxlen: nat, wrap: seq<Byte>) returns (result: seq<Byte>)
    requires size == |Lines(Chars(data), maxlen, wrap)| && data != []
    ensures result == Lines(Chars(data), maxlen, wrap)
  {
    hide Lines, Open, OnLine, Digit;
    var out := new Output(size, maxlen, wrap, Chars(data));
    var offset := 0;
    while offset < |data|
      invariant 0 <= offset && offset % 3 == 0 && offset <= (|data| + 2) / 3 * 3
      invariant out.Valid() && out.done == offset / 3 * 4 && fresh(out.buf) && fresh(out)
    {
      EncodeGroup(out, data, offset);
      offset := offset + 3;
    }
    result := out.buf[..];
    assert out.cursor == out.buf.Length;
  }

  /** Writes the characters for three bytes. */
  method EncodeGroup(out: Output, data: seq<Byte>, offset: nat)
    requires out.Valid() && out.all == Chars(data) && offset % 3 == 0 && offset < |data| && out.done == offset / 3 * 4
    modifies out, out.buf
    ensures out.Valid() && out.buf == old(out.buf) && out.done == old(out.done) + 4
  {
    hide Lines, Open, OnLine, Chars, Digit;
    var d0, d1, d2: Byte := data[offset], 0, 0;
    if offset + 1 < |data| {
      d1 := data[offset + 1];
    }
    if offset + 2 < |data| {
      d2 := data[offset + 2];
    }
    CharsAt(data, offset, 0);
    CharsAt(data, offset, 1);
    CharsAt(data, offset, 2);
    CharsAt(data, offset, 3);
    out.Put(Digit(d0 / 4));
    out.Put(Digit(d0 % 4 * 16 + d1 / 16));
    if offset + 1 < |data| {
      out.Put(Digit(d1 % 16 * 4 + d2 / 64));
    } else {
      out.Put(PAD);
    }
    if offset + 2 < |data| {
      out.Put(Digit(d2 % 64));
    } else {
      out.Put(PAD);
    }
  }

  // ---------------------------------------------------------------- decoding

  /**
   * Four characters read: their bits, how many bytes at the end are not to
   * count, what is left to read, and whether there was a bad character.
   */
  datatype Group = Group(value: nat, cut: nat, rest: seq<Byte>, bad: bool)

  /**
   * Reads the rest of a group, of which i characters have been read. Missing
   * ones count as padding. Once there has been padding only padding counts;
   * what does not count is passed over, or bad if strict.
   */
  ghost function ReadGroup(s: seq<Byte>, i: nat, value: nat, cut: nat, strict: bool): (g: Group)
    requires i <= 4
    ensures |g.rest| <= |s| && (i < 4 && s != [] ==> |g.rest| < |s|)
    decreases |s|, 4 - i
  {
    if i == 4 then Group(value, cut, s, false)
    else if s == [] && i <= 1 then Group(value, if strict then cut else cut + 3, [], strict)
    else
      var c, rest := if s == [] then PAD else s[0], if s == [] then [] else s[1..];
      if cut > 0 then
        if c == PAD && i > 1 then ReadGroup(rest, i + 1, value * 64, cut + 1, strict)
        else if !strict then ReadGroup(rest, i, value, cut, strict)
        else Group(value, cut, rest, true)
      else if Value(c).Some? then ReadGroup(rest, i + 1, value * 64 + Value(c).value, cut, strict)
      else if c == PAD && (!strict || i > 1) then ReadGroup(rest, i + 1, value * 64, if i > 0 then cut + 1 else cut, strict)
      else if strict then Group(value, cut, rest, true)
      else ReadGroup(rest, i, value, cut, strict)
  }

  /** The three bytes of a group. */
  ghost function Bytes3(value: nat): seq<Byte> {
    [Low(value / 0x1_0000), Low(value / 0x100), Low(value)]
  }

  /** Everything decoded, with the bytes at the end that are not to count, and their number. */
  ghost function DecodeAll(s: seq<Byte>, cut: nat, strict: bool): (r: Option<(seq<Byte>, nat)>)
    decreases |s|
  {
    if s == [] then Some(([], cut))
    else
      var g := ReadGroup(s, 0, 0, cut, strict);
      if g.bad || (g.cut > 0 && g.rest != [] && strict) then None
      else
        var r := DecodeAll(g.rest, g.cut, strict);
        if r.None? then None else Some((Bytes3(g.value) + r.value.0, r.value.1))
  }

  lemma {:induction false} CutInGroup(s: seq<Byte>, i: nat, value: nat, cut: nat, strict: bool, base: nat)
    requires i <= 4 && base <= cut <= base + if i == 0 then 0 else i - 1
    ensures base <= ReadGroup(s, i, value, cut, strict).cut <= base + 3
    decreases |s|, 4 - i
  {
    if i < 4 && !(s == [] && i <= 1) {
      var c, rest := if s == [] then PAD else s[0], if s == [] then [] else s[1..];
      if cut > 0 {
        if c == PAD && i > 1 {
          CutInGroup(rest, i + 1, value * 64, cut + 1, strict, base);
        } else if !strict {
          CutInGroup(rest, i, value, cut, strict, base);
        }
      } else if Value(c).Some? {
        CutInGroup(rest, i + 1, value * 64 + Value(c).value, cut, strict, base);
      } else if c == PAD && (!strict || i > 1) {
        CutInGroup(rest, i + 1, value * 64, if i > 0 then cut + 1 else cut, strict, base);
      } else if !strict {
        CutInGroup(rest, i, value, cut, strict, base);
      }
    }
  }

  /** No more bytes are cut than were decoded, and those fit the size computed beforehand. */
  lemma {:induction false} DecodeSize(s: seq<Byte>, cut: nat, strict: bool)
    ensures var r := DecodeAll(s, cut, strict);
            r.Some? ==> |r.value.0| <= (|s| + 3) / 4 * 3 && cut <= r.value.1 <= cut + |r.value.0|
    decreases |s|
  {
    if s != [] {
      var g := ReadGroup(s, 0, 0, cut, strict);
      CutInGroup(s, 0, 0, cut, strict, cut);
      FourRead(s, 0, 0, cut, strict);
      DecodeSize(g.rest, g.cut, strict);
    }
  }

  /** A group takes four characters, or all that are left. */
  lemma {:induction false} FourRead(s: seq<Byte>, i: nat, value: nat, cut: nat, strict: bool)
    requires i <= 4
    ensures var g := ReadGroup(s, i, value, cut, strict); !g.bad ==> |g.rest| + (4 - i) <= |s| || g.rest == []
    decreases |s|, 4 - i
  {
    if i < 4 && !(s == [] && i <= 1) {
      var c, rest := if s == [] then PAD else s[0], if s == [] then [] else s[1..];
      if cut > 0 {
        if c == PAD && i > 1 {
          FourRead(rest, i + 1, value * 64, cut + 1, strict);
        } else if !strict {
          FourRead(rest, i, value, cut, strict);
        }
      } else if Value(c).Some? {
        FourRead(rest, i + 1, value * 64 + Value(c).value, cut, strict);
      } else if c == PAD && (!strict || i > 1) {
        FourRead(rest, i + 1, value * 64, if i > 0 then cut + 1 else cut, strict);
      } else if !strict {
        FourRead(rest, i, value, cut, strict);
      }
    }
  }

  /** What decoding gives, or that there is a bad character. */
  ghost function Decoded(s: seq<Byte>, strict: bool): Option<seq<Byte>> {
    DecodeSize(s, 0, strict);
    var r := DecodeAll(s, 0, strict);
    if r.None? then None else Some(r.value.0[..|r.value.0| - r.value.1])
  }

  /** Decodes base64; fails only if strict. */
  method Decode(data: seq<Byte>, strict: bool) returns (result: Option<seq<Byte>>)
    ensures result == Decoded(data, strict)
    ensures !strict ==> result.Some?
  {
    hide ReadGroup, DecodeAll, Continues, Bytes3, Decoded;
    var size := (|data| + 3) / 4 * 4 * 3 / 4;
    var buf := new Byte[size];
    var at: nat, cursor: nat, cut: nat := 0, 0, 0;
    NeverBad(data, 0);
    assert data[0..] == data;
    ghost var whole := DecodeAll(data, 0, strict);
    AllToDecode(whole, buf[..0]);
    while at < |data|
      invariant at <= |data| && cut <= cursor && cursor + (|data| - at + 3) / 4 * 3 <= size
      invariant Continues(whole, buf[..cursor], DecodeAll(data[at..], cut, strict))
    {
      var g := DecodeGroup(data, at, cut, strict);
      GroupFacts(data[at..], cut, strict);
      var next := |data| - |g.rest|;
      DecodeNext(whole, buf[..cursor], data[at..], cut, strict, g);
      if g.bad {
        DecodedNone(data, strict);
        return None;
      }
      Store3(buf, cursor, g.value);
      if g.cut > 0 && next < |data| {
        if strict {
          DecodedNone(data, strict);
          return None;
        }
      }
      at, cursor, cut := next, cursor + 3, g.cut;
    }
    AllDecoded(whole, buf[..cursor], data[at..], cut, strict);
    DecodedSome(data, strict);
    assert buf[..cursor][..cursor - cut] == buf[..cursor - cut];
    result := Some(buf[..cursor - cut]);
  }

  method Store3(buf: array<Byte>, cursor: nat, value: nat)
    requires cursor + 3 <= buf.Length
    modifies buf
    ensures buf[..cursor + 3] == old(buf[..cursor]) + Bytes3(value)
  {
    ghost var was := buf[..cursor];
    buf[cursor] := Low(value / 0x1_0000);
    buf[cursor + 1] := Low(value / 0x100);
    buf[cursor + 2] := Low(value);
    assert buf[..cursor] == was;
  }

  lemma AllToDecode(whole: Option<(seq<Byte>, nat)>, nothing: seq<Byte>)
    requires nothing == []
    ensures Continues(whole, nothing, whole)
  {
  }

  lemma DecodedNone(data: seq<Byte>, strict: bool)
    requires DecodeAll(data, 0, strict).None?
    ensures Decoded(data, strict) == None && strict
  {
    NeverBad(data, 0);
  }

  lemma DecodedSome(data: seq<Byte>, strict: bool)
    requires DecodeAll(data, 0, strict).Some?
    ensures var r := DecodeAll(data, 0, strict).value;
            r.1 <= |r.0| && Decoded(data, strict) == Some(r.0[..|r.0| - r.1])
  {
    DecodeSize(data, 0, strict);
  }

  lemma AllDecoded(whole: Option<(seq<Byte>, nat)>, done: seq<Byte>, s: seq<Byte>, cut: nat, strict: bool)
    requires Continues(whole, done, DecodeAll(s, cut, strict)) && s == []
    ensures whole.Some? && whole.value.0 == done && whole.value.1 == cut
  {
    assert done + [] == done;
  }

  /** One more group decoded, or nothing at all. */
  lemma DecodeNext(whole: Option<(seq<Byte>, nat)>, done: seq<Byte>, s: seq<Byte>, cut: nat, strict: bool, g: Group)
    requires s != [] && Continues(whole, done, DecodeAll(s, cut, strict)) && g == ReadGroup(s, 0, 0, cut, strict)
    ensures if g.bad || (g.cut > 0 && g.rest != [] && strict) then whole.None?
            else Continues(whole, done + Bytes3(g.value), DecodeAll(g.rest, g.cut, strict))
  {
    hide ReadGroup, Bytes3;
    if !(g.bad || (g.cut > 0 && g.rest != [] && strict)) && DecodeAll(g.rest, g.cut, strict).Some? {
      var r := DecodeAll(g.rest, g.cut, strict).value;
      assert done + (Bytes3(g.value) + r.0) == done + Bytes3(g.value) + r.0;
    }
  }

  lemma GroupFacts(s: seq<Byte>, cut: nat, strict: bool)
    requires s != []
    ensures var g := ReadGroup(s, 0, 0, cut, strict);
            && |g.rest| < |s| && g.cut <= cut + 3 && (!g.bad ==> (|g.rest| + 3) / 4 * 3 + 3 <= (|s| + 3) / 4 * 3)
  {
    CutInGroup(s, 0, 0, cut, strict, cut);
    FourRead(s, 0, 0, cut, strict);
  }

  /** The whole is what has been decoded and then the rest. */
  ghost predicate Continues(whole: Option<(seq<Byte>, nat)>, done: seq<Byte>, rest: Option<(seq<Byte>, nat)>) {
    if rest.None? then whole.None?
    else whole.Some? && whole.value.0 == done + rest.value.0 && whole.value.1 == rest.value.1
  }

  /** Without strictness nothing is bad. */
  lemma {:induction false} NeverBad(s: seq<Byte>, cut: nat)
    ensures DecodeAll(s, cut, false).Some?
    decreases |s|
  {
    if s != [] {
      GroupNeverBad(s, 0, 0, cut);
      NeverBad(ReadGroup(s, 0, 0, cut, false).rest, ReadGroup(s, 0, 0, cut, false).cut);
    }
  }

  lemma {:induction false} GroupNeverBad(s: seq<Byte>, i: nat, value: nat, cut: nat)
    requires i <= 4
    ensures !ReadGroup(s, i, value, cut, false).bad
    decreases |s|, 4 - i
  {
    if i < 4 && !(s == [] && i <= 1) {
      var c, rest := if s == [] then PAD else s[0], if s == [] then [] else s[1..];
      if cut > 0 {
        if c == PAD && i > 1 {
          GroupNeverBad(rest, i + 1, value * 64, cut + 1);
        } else {
          GroupNeverBad(rest, i, value, cut);
        }
      } else if Value(c).Some? {
        GroupNeverBad(rest, i + 1, value * 64 + Value(c).value, cut);
      } else if c == PAD {
        GroupNeverBad(rest, i + 1, value * 64, if i > 0 then cut + 1 else cut);
      } else {
        GroupNeverBad(rest, i, value, cut);
      }
    }
  }

  /** Reads one group of characters. */
  method DecodeGroup(data: seq<Byte>, at: nat, cut0: nat, strict: bool) returns (g: Group)
    requires at < |data|
    ensures g == ReadGroup(data[at..], 0, 0, cut0, strict) && (g.bad || g.rest == data[|data| - |g.rest|..])
  {
    var value: nat, cut: nat, i: nat, next: nat := 0, cut0, 0, at;
    while i < 4
      invariant i <= 4 && at <= next <= |data|
      invariant ReadGroup(data[at..], 0, 0, cut0, strict) == ReadGroup(data[next..], i, value, cut, strict)
      decreases |data| - next, 4 - i
    {
      var c: Byte;
      ghost var s := data[next..];
      if next < |data| {
        c := data[next];
        assert s[1..] == data[next + 1..];
        next := next + 1;
      } else if i > 1 {
        c := PAD;
      } else {
        if strict {
          return Group(value, cut, [], true);
        }
        cut := cut + 3;
        return Group(value, cut, [], false);
      }
      if cut > 0 {
        if c == PAD && i > 1 {
          value := value * 64;
          cut := cut + 1;
          i := i + 1;
        } else if strict {
          return Group(value, cut, data[next..], true);
        }
      } else if Value(c).Some? {
        value := value * 64 + Value(c).value;
        i := i + 1;
      } else if c == PAD && (!strict || i > 1) {
        value := value * 64;
        if i > 0 {
          cut := cut + 1;
        }
        i := i + 1;
      } else if strict {
        return Group(value, cut, data[next..], true);
      }
    }
    g := Group(value, cut, data[next..], false);
  }

  // ---------------------------------------------------------------- round trip

  /** Three bytes as one number. */
  ghost function Whole(d0: int, d1: int, d2: int): (n: nat)
    requires d0 >= 0 && d1 >= 0 && d2 >= 0
  {
    d0 * 0x1_0000 + d1 * 0x100 + d2
  }

  /** The number made of four digits. */
  ghost function FromDigits(v0: nat, v1: nat, v2: nat, v3: nat): nat {
    ((v0 * 64 + v1) * 64 + v2) * 64 + v3
  }

  lemma FourDigits(d0: int, d1: int, d2: int)
    requires 0 <= d0 < 0x100 && 0 <= d1 < 0x100 && 0 <= d2 < 0x100
    ensures FromDigits(d0 / 4, d0 % 4 * 16 + d1 / 16, d1 % 16 * 4 + d2 / 64, d2 % 64) == Whole(d0, d1, d2)
  {
    assert d0 == d0 / 4 * 4 + d0 % 4 && d1 == d1 / 16 * 16 + d1 % 16 && d2 == d2 / 64 * 64 + d2 % 64;
  }

  lemma ThreeBytes(d0: Byte, d1: Byte, d2: Byte)
    ensures Bytes3(Whole(d0, d1, d2)) == [d0, d1, d2]
  {
    var a: int := d0;
    var b: int := d1;
    var c: int := d2;
    var n := Whole(a, b, c);
    assert n / 0x1_0000 == a && n / 0x100 == a * 0x100 + b;
    assert (a * 0x100 + b) % 0x100 == b && n % 0x100 == c;
  }

  /** The next character is a digit. */
  lemma DigitRead(s: seq<Byte>, i: nat, value: nat, strict: bool, v: nat)
    requires i < 4 && s != [] && Value(s[0]) == Some(v)
    ensures ReadGroup(s, i, value, 0, strict) == ReadGroup(s[1..], i + 1, value * 64 + v, 0, strict)
  {
    hide Value;
  }

  /** The next character is padding, after at least two digits. */
  lemma PadRead(s: seq<Byte>, i: nat, value: nat, cut: nat, strict: bool)
    requires 1 < i < 4 && s != [] && s[0] == PAD
    ensures ReadGroup(s, i, value, cut, strict) == ReadGroup(s[1..], i + 1, value * 64, cut + 1, strict)
  {
    assert Value(PAD) == None;
  }

  /** A group of four characters with nothing to pass over. */
  lemma ReadQuad(q: seq<Byte>, rest: seq<Byte>, strict: bool, v0: nat, v1: nat, v2: nat, v3: nat, cut: nat)
    requires |q| == 4 && cut <= 2
    requires Value(q[0]) == Some(v0) && Value(q[1]) == Some(v1)
    requires if cut == 2 then q[2] == PAD && v2 == 0 else Value(q[2]) == Some(v2)
    requires if cut >= 1 then q[3] == PAD && v3 == 0 else Value(q[3]) == Some(v3)
    ensures ReadGroup(q + rest, 0, 0, 0, strict) == Group(FromDigits(v0, v1, v2, v3), cut, rest, false)
  {
    hide Value, ReadGroup;
    var s, t, u, w := q + rest, q[1..] + rest, q[2..] + rest, q[3..] + rest;
    assert s[1..] == t && t[1..] == u && u[1..] == w && w[1..] == rest;
    var n1: nat := v0 * 64 + v1;
    var n2: nat := n1 * 64 + v2;
    DigitRead(s, 0, 0, strict, v0);
    DigitRead(t, 1, v0, strict, v1);
    if cut == 2 {
      PadRead(u, 2, n1, 0, strict);
      PadRead(w, 3, n2, 1, strict);
    } else {
      DigitRead(u, 2, n1, strict, v2);
      if cut == 1 {
        PadRead(w, 3, n2, 0, strict);
      } else {
        DigitRead(w, 3, n2, strict, v3);
      }
    }
    FullGroup(rest, n2 * 64 + v3, cut, strict);
  }

  lemma FullGroup(s: seq<Byte>, value: nat, cut: nat, strict: bool)
    ensures ReadGroup(s, 4, value, cut, strict) == Group(value, cut, s, false)
  {
  }

  /** The zero bytes that padding stands for. */
  ghost function Zeros(n: nat): seq<Byte> {
    seq(n, _ => 0)
  }

  /** Decoding the characters for some data gives the data and as many zero bytes as there is padding. */
  lemma {:induction false} PlainRoundTrip(data: seq<Byte>, strict: bool)
    ensures var r := DecodeAll(Chars(data), 0, strict);
            r.Some? && r.value.0 == data + Zeros(r.value.1)
    decreases |data|
  {
    if |data| >= 3 {
      PlainRoundTrip(data[3..], strict);
      MoreDecoded(data, strict);
    } else if data != [] {
      LastQuad(data, strict);
    }
  }

  lemma FirstQuad(data: seq<Byte>, strict: bool)
    requires |data| >= 3
    ensures Chars(data) == Quad(data, 0) + Chars(data[3..])
    ensures ReadGroup(Chars(data), 0, 0, 0, strict) == Group(Whole(data[0], data[1], data[2]), 0, Chars(data[3..]), false)
  {
    hide Value, ReadGroup, Digit, Whole, FromDigits;
    var d0: int := data[0];
    var d1: int := data[1];
    var d2: int := data[2];
    QuadValues(d0, d1, d2);
    FourDigits(d0, d1, d2);
    ReadQuad(Quad(data, 0), Chars(data[3..]), strict, d0 / 4, d0 % 4 * 16 + d1 / 16, d1 % 16 * 4 + d2 / 64, d2 % 64, 0);
  }

  lemma MoreDecoded(data: seq<Byte>, strict: bool)
    requires |data| >= 3
    requires var r := DecodeAll(Chars(data[3..]), 0, strict);
             r.Some? && r.value.0 == data[3..] + Zeros(r.value.1)
    ensures var r := DecodeAll(Chars(data), 0, strict);
            r.Some? && r.value.0 == data + Zeros(r.value.1)
  {
    hide ReadGroup, Digit, Value, Bytes3, Whole, Zeros, Chars, Quad;
    FirstQuad(data, strict);
    ThreeBytes(data[0], data[1], data[2]);
    CharsSome(data);
    GroupDecoded(Chars(data), strict, ReadGroup(Chars(data), 0, 0, 0, strict));
    var zeros := Zeros(DecodeAll(Chars(data[3..]), 0, strict).value.1);
    assert [data[0], data[1], data[2]] + (data[3..] + zeros) == data + zeros;
  }

  lemma CharsSome(data: seq<Byte>)
    requires data != []
    ensures Chars(data) != []
  {
  }

  lemma GroupDecoded(s: seq<Byte>, strict: bool, g: Group)
    requires s != [] && g == ReadGroup(s, 0, 0, 0, strict) && !g.bad && g.cut == 0
    requires DecodeAll(g.rest, 0, strict).Some?
    ensures var r := DecodeAll(g.rest, 0, strict).value;
            DecodeAll(s, 0, strict) == Some((Bytes3(g.value) + r.0, r.1))
  {
    hide ReadGroup, Bytes3;
  }

  lemma QuadValues(d0: int, d1: int, d2: int)
    requires 0 <= d0 < 0x100 && 0 <= d1 < 0x100 && 0 <= d2 < 0x100
    ensures Value(Digit(d0 / 4)) == Some(d0 / 4) && Value(Digit(d0 % 4 * 16 + d1 / 16)) == Some(d0 % 4 * 16 + d1 / 16)
    ensures Value(Digit(d1 % 16 * 4 + d2 / 64)) == Some(d1 % 16 * 4 + d2 / 64) && Value(Digit(d2 % 64)) == Some(d2 % 64)
  {
    hide Value, Digit;
    ValueOfDigit(d0 / 4);
    ValueOfDigit(d0 % 4 * 16 + d1 / 16);
    ValueOfDigit(d1 % 16 * 4 + d2 / 64);
    ValueOfDigit(d2 % 64);
  }

  lemma LastQuad(data: seq<Byte>, strict: bool)
    requires 0 < |data| < 3
    ensures var r := DecodeAll(Chars(data), 0, strict);
            r.Some? && r.value.0 == data + Zeros(r.value.1)
  {
    hide ReadGroup, Digit, Value, Bytes3, Whole;
    var d0: int := data[0];
    var d1: int := if |data| == 2 then data[1] else 0;
    LastGroup(data, d0, d1, strict);
    ThreeBytes(d0, d1, 0);
    var cut := 3 - |data|;
    assert [d0, d1, 0] + [] == data + Zeros(cut);
  }

  lemma LastGroup(data: seq<Byte>, d0: int, d1: int, strict: bool)
    requires 0 < |data| < 3 && d0 == data[0] && d1 == if |data| == 2 then data[1] else 0
    ensures ReadGroup(Chars(data), 0, 0, 0, strict) == Group(Whole(d0, d1, 0), 3 - |data|, [], false)
  {
    hide ReadGroup, Digit, Value, Whole, FromDigits;
    QuadValues(d0, d1, 0);
    FourDigits(d0, d1, 0);
    var q := Chars(data);
    assert q + [] == q;
    assert |data| == 1 ==> d0 % 4 * 16 + d1 / 16 == d0 % 4 * 16 && d1 % 16 * 4 == 0;
    ReadQuad(q, [], strict, d0 / 4, d0 % 4 * 16 + d1 / 16, d1 % 16 * 4, 0, 3 - |data|);
  }

  predicate Counts(c: Byte) {
    Value(c).Some? || c == PAD
  }

  /** The characters that count. */
  function Kept(s: seq<Byte>): seq<Byte> {
    if s == [] then [] else (if Counts(s[0]) then [s[0]] else []) + Kept(s[1..])
  }

  ghost predicate EndsWell(s: seq<Byte>) {
    s == [] || Counts(s[|s| - 1])
  }

  /** Characters that do not count are passed over, when something that counts comes later. */
  lemma {:induction false} GroupKept(s: seq<Byte>, i: nat, value: nat, cut: nat)
    requires i <= 4 && EndsWell(s)
    ensures SameGroup(ReadGroup(s, i, value, cut, false), ReadGroup(Kept(s), i, value, cut, false))
    decreases |s|, 4 - i
  {
    hide Value, SameGroup, ReadGroup, Kept, Counts, EndsWell;
    if s == [] || i == 4 {
      GroupOfNone(s, i, value, cut);
    } else {
      ShorterEndsWell(s);
      if !Counts(s[0]) {
        SkipRead(s, i, value, cut);
        GroupKept(s[1..], i, value, cut);
      } else {
        KeptFirst(s);
        var (j, v, k) := AfterOne(s[0], i, value, cut);
        OneRead(s, i, value, cut);
        OneRead(Kept(s), i, value, cut);
        GroupKept(s[1..], j, v, k);
      }
    }
  }

  ghost predicate SameGroup(g: Group, h: Group) {
    g.value == h.value && g.cut == h.cut && h.rest == Kept(g.rest) && EndsWell(g.rest)
  }

  /** What has been read after one character that counts. */
  ghost function AfterOne(c: Byte, i: nat, value: nat, cut: nat): (r: (nat, nat, nat))
    requires i < 4
    ensures r.0 <= 4
  {
    if cut > 0 then if c == PAD && i > 1 then (i + 1, value * 64, cut + 1) else (i, value, cut)
    else if Value(c).Some? then (i + 1, value * 64 + Value(c).value, cut)
    else (i + 1, value * 64, if i > 0 then cut + 1 else cut)
  }

  lemma OneRead(s: seq<Byte>, i: nat, value: nat, cut: nat)
    requires i < 4 && s != [] && Counts(s[0])
    ensures var r := AfterOne(s[0], i, value, cut);
            ReadGroup(s, i, value, cut, false) == ReadGroup(s[1..], r.0, r.1, r.2, false)
  {
    hide Value;
  }

  lemma SkipRead(s: seq<Byte>, i: nat, value: nat, cut: nat)
    requires i < 4 && s != [] && !Counts(s[0])
    ensures ReadGroup(s, i, value, cut, false) == ReadGroup(s[1..], i, value, cut, false) && Kept(s) == Kept(s[1..])
  {
    hide Value;
  }

  lemma KeptFirst(s: seq<Byte>)
    requires s != [] && Counts(s[0])
    ensures Kept(s) == [s[0]] + Kept(s[1..]) && Kept(s)[1..] == Kept(s[1..])
  {
    hide Counts;
  }

  lemma ShorterEndsWell(s: seq<Byte>)
    requires s != [] && EndsWell(s)
    ensures EndsWell(s[1..])
  {
    hide Counts;
  }

  lemma GroupOfNone(s: seq<Byte>, i: nat, value: nat, cut: nat)
    requires i <= 4 && EndsWell(s) && (s == [] || i == 4)
    ensures SameGroup(ReadGroup(s, i, value, cut, false), ReadGroup(Kept(s), i, value, cut, false))
  {
    hide Value, Counts;
    if s == [] {
      NoneRead(i, value, cut);
    }
  }

  lemma NoneRead(i: nat, value: nat, cut: nat)
    requires i <= 4
    ensures ReadGroup([], i, value, cut, false).rest == []
  {
  }

  lemma {:induction false} KeptSome(s: seq<Byte>)
    requires s != [] && EndsWell(s)
    ensures Kept(s) != []
  {
    if !Counts(s[0]) {
      KeptSome(s[1..]);
    }
  }

  lemma {:induction false} AllKept(s: seq<Byte>, cut: nat)
    requires EndsWell(s)
    ensures DecodeAll(s, cut, false) == DecodeAll(Kept(s), cut, false)
    decreases |s|
  {
    hide ReadGroup, Counts;
    if s != [] {
      KeptSome(s);
      GroupKept(s, 0, 0, cut);
      GroupNeverBad(s, 0, 0, cut);
      GroupNeverBad(Kept(s), 0, 0, cut);
      AllKept(ReadGroup(s, 0, 0, cut, false).rest, ReadGroup(s, 0, 0, cut, false).cut);
    }
  }

  lemma {:induction false} KeptJoin(s: seq<Byte>, t: seq<Byte>)
    ensures Kept(s + t) == Kept(s) + Kept(t)
  {
    hide Kept;
    if s == [] {
      assert s + t == t;
      KeptOf(s);
    } else {
      assert (s + t)[1..] == s[1..] + t;
      KeptOf(s);
      KeptOf(s + t);
      KeptJoin(s[1..], t);
    }
  }

  lemma KeptOf(s: seq<Byte>)
    ensures Kept(s) == if s == [] then [] else (if Counts(s[0]) then [s[0]] else []) + Kept(s[1..])
  {
  }

  lemma {:induction false} KeptAll(s: seq<Byte>)
    requires forall i :: 0 <= i < |s| ==> Counts(s[i])
    ensures Kept(s) == s
  {
    if s != [] {
      KeptAll(s[1..]);
    }
  }

  lemma {:induction false} KeptNone(s: seq<Byte>)
    requires forall i :: 0 <= i < |s| ==> !Counts(s[i])
    ensures Kept(s) == []
  {
    if s != [] {
      KeptNone(s[1..]);
    }
  }

  /** What separates lines is passed over. */
  lemma {:induction false} LinesKept(s: seq<Byte>, maxlen: nat, wrap: seq<Byte>)
    requires (forall i :: 0 <= i < |s| ==> Counts(s[i])) && forall i :: 0 <= i < |wrap| ==> !Counts(wrap[i])
    ensures Kept(Lines(s, maxlen, wrap)) == s && EndsWell(Lines(s, maxlen, wrap))
    decreases |s|
  {
    hide Counts;
    if maxlen == 0 || |s| <= maxlen {
      KeptAll(s);
    } else {
      var rest := Lines(s[maxlen..], maxlen, wrap);
      LinesKept(s[maxlen..], maxlen, wrap);
      KeptAll(s[..maxlen]);
      KeptNone(wrap);
      KeptJoin(s[..maxlen] + wrap, rest);
      KeptJoin(s[..maxlen], wrap);
      assert rest != [];
    }
  }

  lemma {:induction false} CharsCount(data: seq<Byte>)
    ensures forall i :: 0 <= i < |Chars(data)| ==> Counts(Chars(data)[i])
    decreases |data|
  {
    if |data| >= 3 {
      CharsCount(data[3..]);
    }
  }

  /**
   * Decoding undoes encoding, for every length of line and everything between
   * lines that has no character of the alphabet and no padding.
   */
  lemma RoundTrip(data: seq<Byte>, maxlen: nat, wrap: seq<Byte>)
    requires forall i :: 0 <= i < |wrap| ==> !Counts(wrap[i])
    ensures Decoded(Lines(Chars(data), maxlen, wrap), false) == Some(data)
  {
    hide Chars, Lines, DecodeAll, Counts;
    CharsCount(data);
    LinesKept(Chars(data), maxlen, wrap);
    AllKept(Lines(Chars(data), maxlen, wrap), 0);
    PlainRoundTrip(data, false);
    DecodeSize(Lines(Chars(data), maxlen, wrap), 0, false);
  }

  /** In one line the result is good enough for strict decoding. */
  lemma StrictRoundTrip(data: seq<Byte>)
    ensures Decoded(Chars(data), true) == Some(data)
  {
    hide Chars, DecodeAll;
    PlainRoundTrip(data, true);
    DecodeSize(Chars(data), 0, true);
  }
}
