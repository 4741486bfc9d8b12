/** The CBOR codec byte by byte: heads, initial bytes, and examples such as those in appendix A of RFC 8949. */
module CborExamples {
  import opened Basics
  import opened Errors
  import opened Utf8
  import opened Cbor
  import opened CborForms

  // ----- Heads -----

  /** The four bytes of a 32-bit number. */
  lemma FourBytes(n: u32)
    ensures BigEndian(n, 4) == [n / 0x100_0000, n / 0x1_0000 % 256, n / 0x100 % 256, n % 256]
  {
    hide BigEndian, Pow256;
    SmallPowers();
    BigEndianDigit(n, 4, 0);
    BigEndianDigit(n, 4, 1);
    BigEndianDigit(n, 4, 2);
    BigEndianDigit(n, 4, 3);
  }

  /** The eight bytes of a 64-bit number: those of its two halves. */
  lemma EightBytes(n: u64)
    ensures BigEndian(n, 8) == BigEndian(n / 0x1_0000_0000, 4) + BigEndian(n % 0x1_0000_0000, 4)
  {
    hide BigEndian, FromBigEndian, Pow256;
    SmallPowers();
    var high, low := BigEndian(n / 0x1_0000_0000, 4), BigEndian(n % 0x1_0000_0000, 4);
    BigEndianRoundTrip(n / 0x1_0000_0000, 4);
    BigEndianRoundTrip(n % 0x1_0000_0000, 4);
    BigEndianIsPositional(high, low);
    BigEndianOfBytes(high + low);
  }

  /** The bytes of a shortest head (section 3 of RFC 8949). */
  lemma HeadBytes(major: Major, n: u64)
    ensures n < 24 ==> EncodeHead(major, n) == [major * 32 + n]
    ensures 24 <= n < 0x100 ==> EncodeHead(major, n) == [major * 32 + 24, n]
    ensures 0x100 <= n < 0x1_0000 ==> EncodeHead(major, n) == [major * 32 + 25, n / 0x100, n % 256]
    ensures 0x1_0000 <= n < 0x1_0000_0000 ==>
              EncodeHead(major, n)
              == [major * 32 + 26, n / 0x100_0000, n / 0x1_0000 % 256, n / 0x100 % 256, n % 256]
    ensures 0x1_0000_0000 <= n ==>
              var x, y := n / 0x1_0000_0000, n % 0x1_0000_0000;
              EncodeHead(major, n)
              == [major * 32 + 27, x / 0x100_0000, x / 0x1_0000 % 256, x / 0x100 % 256, x % 256,
                  y / 0x100_0000, y / 0x1_0000 % 256, y / 0x100 % 256, y % 256]
  {
    hide BigEndian, Pow256;
    SmallPowers();
    if n < 24 {
    } else if n < 0x100 {
      BigEndianDigit(n, 1, 0);
    } else if n < 0x1_0000 {
      BigEndianDigit(n, 2, 0);
      BigEndianDigit(n, 2, 1);
    } else if n < 0x1_0000_0000 {
      FourBytes(n);
    } else {
      EightBytes(n);
      FourBytes(n / 0x1_0000_0000);
      FourBytes(n % 0x1_0000_0000);
    }
  }

  lemma LastByte(s: seq<byte>)
    requires s != []
    ensures FromBigEndian(s) == FromBigEndian(s[..|s| - 1]) * 256 + s[|s| - 1]
  {
  }

  lemma TwoByteNumber(s: seq<byte>)
    requires |s| == 2
    ensures FromBigEndian(s) == s[0] as int * 0x100 + s[1]
  {
    LastByte(s);
    LastByte(s[..1]);
    assert s[..1][..0] == [];
  }

  lemma FourByteNumber(s: seq<byte>)
    requires |s| == 4
    ensures FromBigEndian(s) == s[0] as int * 0x100_0000 + s[1] as int * 0x1_0000 + s[2] as int * 0x100 + s[3]
  {
    hide FromBigEndian;
    LastByte(s);
    LastByte(s[..3]);
    TwoByteNumber(s[..3][..2]);
  }

  lemma EightByteNumber(s: seq<byte>)
    requires |s| == 8
    ensures FromBigEndian(s) == FromBigEndian(s[..4]) * 0x1_0000_0000 + FromBigEndian(s[4..])
  {
    hide FromBigEndian, Pow256;
    SmallPowers();
    BigEndianIsPositional(s[..4], s[4..]);
    assert s == s[..4] + s[4..];
  }

  /** The bytes of `buf` from `at` on, read as a 32-bit number. */
  function Number(buf: seq<byte>, at: nat): (n: int)
    requires at + 4 <= |buf|
    ensures n == buf[at] as int * 0x100_0000 + buf[at + 1] as int * 0x1_0000 + buf[at + 2] as int * 0x100 + buf[at + 3]
  {
    FourByteNumber(buf[at..at + 4]);
    FromBigEndian(buf[at..at + 4])
  }

  lemma HeadArgument(buf: seq<byte>, w: nat)
    requires |buf| >= 1 + w
    ensures w == 1 ==> FromBigEndian(buf[1..2]) == buf[1]
    ensures w == 2 ==> FromBigEndian(buf[1..3]) == buf[1] as int * 0x100 + buf[2]
    ensures w == 4 ==> FromBigEndian(buf[1..5]) == Number(buf, 1)
    ensures w == 8 ==> FromBigEndian(buf[1..9]) == Number(buf, 1) * 0x1_0000_0000 + Number(buf, 5)
  {
    if w == 1 {
      LastByte(buf[1..2]);
      assert buf[1..2][..0] == [];
    } else if w == 2 {
      TwoByteNumber(buf[1..3]);
    } else if w == 8 {
      EightByteNumber(buf[1..9]);
      assert buf[1..9][..4] == buf[1..5] && buf[1..9][4..] == buf[5..9];
    }
  }

  /** What the low bits of an initial byte announce (section 3 of RFC 8949). */
  lemma InitialByte(buf: seq<byte>)
    requires buf != []
    ensures var major, info, r := buf[0] / 32, buf[0] % 32, ReadHead(buf);
            && (info < 24 ==> r == Ok(Head(major, info, info, buf[1..])))
            && (info == 24 && |buf| >= 2 ==> r == Ok(Head(major, 24, buf[1], buf[2..])))
            && (info == 25 && |buf| >= 3 ==> r == Ok(Head(major, 25, buf[1] as int * 0x100 + buf[2], buf[3..])))
            && (info == 26 && |buf| >= 5 ==> r == Ok(Head(major, 26, Number(buf, 1), buf[5..])))
            && (info == 27 && |buf| >= 9 ==>
                  r == Ok(Head(major, 27, Number(buf, 1) * 0x1_0000_0000 + Number(buf, 5), buf[9..])))
            && (28 <= info < 31 ==> r == Err(Syntax))
            && (info == 31 ==> r.Ok? && r.value.major == major && r.value.info == 31 && r.value.rest == buf[1..])
            && (|buf| < (match info case 24 => 2 case 25 => 3 case 26 => 5 case 27 => 9 case _ => 0) ==>
                  r == Err(UnexpectedEnd))
  {
    hide FromBigEndian, Number;
    var w := ArgumentWidth(buf[0] % 32);
    if |buf| >= 1 + w {
      HeadArgument(buf, w);
    }
  }

  /** What the high bits make of the argument: eight major types (section 3.1 of RFC 8949). */
  lemma MajorType(buf: seq<byte>, budget: nat)
    requires ReadHead(buf).Ok? && ReadHead(buf).value.info != 31
    ensures var h, r := ReadHead(buf).value, Decode(buf, budget);
            var n, rest := h.argument, h.rest;
            && (h.major == 0 ==> r == Ok(Decoded(Int(n), rest)))
            && (h.major == 1 ==> r == Ok(Decoded(Int(-1 - n), rest)))
            && (h.major == 2 && n <= |rest| ==> r == Ok(Decoded(Bytes(rest[..n]), rest[n..])))
            && (h.major == 3 && n <= |rest| && IsUtf8(rest[..n]) ==> r == Ok(Decoded(Text(rest[..n]), rest[n..])))
            && (h.major == 3 && n <= |rest| && !IsUtf8(rest[..n]) ==> r == Err(InvalidUtf8))
            && ((h.major == 2 || h.major == 3) && n > |rest| ==> r == Err(UnexpectedEnd))
            && (4 <= h.major < 7 && budget == 0 ==> r == Err(RecursionLimit))
            && (h.major == 4 && n == 0 && budget > 0 ==> r == Ok(Decoded(Array([]), rest)))
            && (h.major == 4 && budget > 0 && DecodeItems(rest, n, budget - 1).Ok? ==>
                  var d := DecodeItems(rest, n, budget - 1).value; r == Ok(Decoded(Array(d.value), d.rest)))
            && (h.major == 5 && n == 0 && budget > 0 ==> r == Ok(Decoded(Map([]), rest)))
            && (h.major == 5 && budget > 0 && DecodeItems(rest, 2 * n, budget - 1).Ok? ==>
                  var d := DecodeItems(rest, 2 * n, budget - 1).value; r == Ok(Decoded(Map(d.value), d.rest)))
            && (h.major == 6 && budget > 0 && Decode(rest, budget - 1).Ok? ==>
                  var d := Decode(rest, budget - 1).value; r == Ok(Decoded(Tag(n, d.value), d.rest)))
            && (h.major == 7 && 20 <= h.info < 24 ==> r == Ok(Decoded(Simple(h.info), rest)))
            && (h.major == 7 && h.info == 25 ==> r == Ok(Decoded(Float(2, n), rest)))
            && (h.major == 7 && h.info == 26 ==> r == Ok(Decoded(Float(4, n), rest)))
            && (h.major == 7 && h.info == 27 ==> r == Ok(Decoded(Float(8, n), rest)))
            && (h.major == 7 && (h.info < 20 || h.info == 24) ==> r == Err(Unsupported))
  {
    hide ReadHead, IsUtf8;
    var h := ReadHead(buf).value;
    assert Decode(buf, budget) == DecodeBody(h, budget);
    if budget > 0 {
      assert DecodeItems(h.rest, 0, budget - 1) == Ok(Decoded([], h.rest));
    }
  }

  // ----- Examples, most of them from appendix A of RFC 8949 -----

  lemma IntegerReads(s: seq<byte>, n: nat)
    requires s != [] && s[0] < 0x40
    requires match s[0] % 32
             case 24 => |s| == 2 && n == s[1]
             case 25 => |s| == 3 && n == s[1] as int * 0x100 + s[2]
             case 26 => |s| == 5 && n == Number(s, 1)
             case 27 => |s| == 9 && n == Number(s, 1) * 0x1_0000_0000 + Number(s, 5)
             case info => info < 24 && |s| == 1 && n == info
    ensures Decode(s, 256) == Ok(Decoded(if s[0] < 0x20 then Int(n) else Int(-1 - n), []))
  {
    hide ReadHead, Decode, Number;
    InitialByte(s);
    assert s[|s|..] == [];
    MajorType(s, 256);
  }

  lemma IntegerExamples()
    ensures Decode([0x00], 256) == Ok(Decoded(Int(0), []))
    ensures Decode([0x17], 256) == Ok(Decoded(Int(23), []))
    ensures Decode([0x18, 0x18], 256) == Ok(Decoded(Int(24), []))
    ensures Decode([0x19, 0x03, 0xE8], 256) == Ok(Decoded(Int(1000), []))
    ensures Decode([0x1A, 0x00, 0x0F, 0x42, 0x40], 256) == Ok(Decoded(Int(1_000_000), []))
    ensures Decode([0x1B, 0x00, 0x00, 0x00, 0xE8, 0xD4, 0xA5, 0x10, 0x00], 256)
            == Ok(Decoded(Int(1_000_000_000_000), []))
    ensures Decode([0x20], 256) == Ok(Decoded(Int(-1), []))
    ensures Decode([0x39, 0x03, 0xE7], 256) == Ok(Decoded(Int(-1000), []))
  {
    hide Decode;
    IntegerReads([0x00], 0);
    IntegerReads([0x17], 23);
    IntegerReads([0x18, 0x18], 24);
    IntegerReads([0x19, 0x03, 0xE8], 1000);
    IntegerReads([0x1A, 0x00, 0x0F, 0x42, 0x40], 1_000_000);
    IntegerReads([0x1B, 0x00, 0x00, 0x00, 0xE8, 0xD4, 0xA5, 0x10, 0x00], 1_000_000_000_000);
    IntegerReads([0x20], 0);
    IntegerReads([0x39, 0x03, 0xE7], 999);
  }

  lemma FormReads(f: Form, s: seq<byte>, v: Value)
    requires Valid(f) && Write(f) == s && Meaning(f) == v && Nesting(v) <= 256
    ensures Decode(s, 256) == Ok(Decoded(v, []))
  {
    hide Decode;
    WrittenReads(f, 256, []);
    assert s + [] == s;
  }

  /** A small number takes one byte. */
  lemma SmallNumber(n: nat)
    requires n < 24
    ensures Valid(Atom(0, 0, n)) && Write(Atom(0, 0, n)) == [n] && Meaning(Atom(0, 0, n)) == Int(n)
  {
  }

  /** A string of fewer than 24 bytes: an initial byte, then the contents. */
  lemma ShortStringReads(major: Major, s: seq<byte>, buf: seq<byte>)
    requires IsString(major) && |s| < 24 && (major == 3 ==> IsUtf8(s))
    requires buf == [major * 32 + |s|] + s
    ensures Decode(buf, 256) == Ok(Decoded(if major == 2 then Bytes(s) else Text(s), []))
  {
    hide Decode, ReadHead, IsUtf8;
    assert buf[0] / 32 == major && buf[0] % 32 == |s| && buf[1..] == s;
    InitialByte(buf);
    assert s[..|s|] == s && s[|s|..] == [];
    MajorType(buf, 256);
  }

  lemma StringExamples()
    ensures Decode([0x44, 0x01, 0x02, 0x03, 0x04], 256) == Ok(Decoded(Bytes([0x01, 0x02, 0x03, 0x04]), []))
    ensures Decode([0x64, 0x49, 0x45, 0x54, 0x46], 256) == Ok(Decoded(Text([0x49, 0x45, 0x54, 0x46]), []))
  {
    hide Decode, IsUtf8;
    var text: seq<byte> := [0x49, 0x45, 0x54, 0x46];
    AsciiIsUtf8(text);
    ShortStringReads(2, [0x01, 0x02, 0x03, 0x04], [0x44, 0x01, 0x02, 0x03, 0x04]);
    ShortStringReads(3, text, [0x64, 0x49, 0x45, 0x54, 0x46]);
  }

  lemma FirstItem(f: Form, fs: seq<Form>)
    requires Valid(f) && ValidItems(fs)
    ensures ValidItems([f] + fs)
    ensures WriteItems([f] + fs) == Write(f) + WriteItems(fs)
    ensures Meanings([f] + fs) == [Meaning(f)] + Meanings(fs)
  {
    assert ([f] + fs)[1..] == fs;
  }

  lemma TwoNumbers(m: nat, n: nat)
    requires m < 24 && n < 24
    ensures var fs := [Atom(0, 0, m), Atom(0, 0, n)];
            ValidItems(fs) && WriteItems(fs) == [m, n] && Meanings(fs) == [Int(m), Int(n)]
    ensures NestingItems([Int(m), Int(n)]) == 0
  {
    hide Valid, Write, Meaning;
    SmallNumber(m);
    SmallNumber(n);
    FirstItem(Atom(0, 0, n), []);
    FirstItem(Atom(0, 0, m), [Atom(0, 0, n)]);
    assert [Atom(0, 0, n)] == [Atom(0, 0, n)] + [];
    assert [Atom(0, 0, m), Atom(0, 0, n)] == [Atom(0, 0, m)] + [Atom(0, 0, n)];
    assert [Int(m), Int(n)] == [Int(m)] + ([Int(n)] + []);
    ConsItems(Int(n), []);
    ConsItems(Int(m), [Int(n)] + []);
  }

  /** An array or a map of two small numbers, with its length given or left open. */
  lemma PairReads(major: Major, m: nat, n: nat)
    requires IsContainer(major) && m < 24 && n < 24
    ensures var v := if major == 4 then Array([Int(m), Int(n)]) else Map([Int(m), Int(n)]);
            && Decode([if major == 4 then 0x82 else 0xA1, m, n], 256) == Ok(Decoded(v, []))
            && Decode([if major == 4 then 0x9F else 0xBF, m, n, 0xFF], 256) == Ok(Decoded(v, []))
  {
    hide Decode, ValidItems, WriteItems, Meanings, NestingItems, Pow256, BigEndian;
    TwoNumbers(m, n);
    var fs, v := [Atom(0, 0, m), Atom(0, 0, n)], ListValue(major, [Int(m), Int(n)]);
    assert BigEndian(Elements(major, 2), 0) == [];
    assert Write(List(major, 0, fs)) == [if major == 4 then 0x82 else 0xA1, m, n];
    FormReads(List(major, 0, fs), [if major == 4 then 0x82 else 0xA1, m, n], v);
    assert Write(OpenList(major, fs)) == [if major == 4 then 0x9F else 0xBF, m, n, 0xFF];
    FormReads(OpenList(major, fs), [if major == 4 then 0x9F else 0xBF, m, n, 0xFF], v);
  }

  lemma ContainerExamples()
    ensures Decode([0x82, 0x02, 0x03], 256) == Ok(Decoded(Array([Int(2), Int(3)]), []))
    ensures Decode([0x9F, 0x04, 0x05, 0xFF], 256) == Ok(Decoded(Array([Int(4), Int(5)]), []))
    ensures Decode([0xA1, 0x01, 0x02], 256) == Ok(Decoded(Map([Int(1), Int(2)]), []))
    ensures Decode([0xBF, 0x01, 0x02, 0xFF], 256) == Ok(Decoded(Map([Int(1), Int(2)]), []))
  {
    hide Decode;
    PairReads(4, 2, 3);
    PairReads(4, 4, 5);
    PairReads(5, 1, 2);
  }

  lemma TagExample()
    ensures Decode([0xC1, 0x14], 256) == Ok(Decoded(Tag(1, Int(20)), []))
  {
    hide Decode, Pow256;
    SmallNumber(20);
    assert Write(Tagged(0, 1, Atom(0, 0, 20))) == [0xC1, 0x14];
    FormReads(Tagged(0, 1, Atom(0, 0, 20)), [0xC1, 0x14], Tag(1, Int(20)));
  }

  lemma FirstChunk(c: Chunk, cs: seq<Chunk>)
    requires |c.bytes| < 24 && c.width == 0 && ValidChunks(2, cs)
    ensures ValidChunks(2, [c] + cs)
    ensures WriteChunks(2, [c] + cs) == [0x40 + |c.bytes|] + c.bytes + WriteChunks(2, cs)
    ensures Joined([c] + cs) == c.bytes + Joined(cs)
  {
    hide Pow256, BigEndian;
    assert ([c] + cs)[1..] == cs;
    assert BigEndian(|c.bytes|, 0) == [];
  }

  lemma TwoChunks(x: Chunk, y: Chunk)
    requires |x.bytes| < 24 && x.width == 0 && |y.bytes| < 24 && y.width == 0
    ensures var f := ChunkedStr(2, [x] + ([y] + []));
            && Valid(f)
            && Write(f) == [0x5F] + ([0x40 + |x.bytes|] + x.bytes + ([0x40 + |y.bytes|] + y.bytes + [0xFF]))
            && Meaning(f) == Bytes(x.bytes + y.bytes)
  {
    FirstChunk(y, []);
    hide ValidChunks, WriteChunks, Joined, WriteHead, Pow256;
    FirstChunk(x, [y] + []);
    assert y.bytes + [] == y.bytes;
  }

  /** A string in pieces, up to a break. */
  lemma ChunkExample()
    ensures Decode([0x5F, 0x42, 0x01, 0x02, 0x43, 0x03, 0x04, 0x05, 0xFF], 256)
            == Ok(Decoded(Bytes([0x01, 0x02, 0x03, 0x04, 0x05]), []))
  {
    hide Decode, Valid, Write, Meaning;
    var x, y := Chunk(0, [0x01, 0x02]), Chunk(0, [0x03, 0x04, 0x05]);
    TwoChunks(x, y);
    FormReads(ChunkedStr(2, [x] + ([y] + [])), [0x5F, 0x42, 0x01, 0x02, 0x43, 0x03, 0x04, 0x05, 0xFF],
              Bytes([0x01, 0x02, 0x03, 0x04, 0x05]));
  }

  lemma SimpleReads(code: nat)
    requires 20 <= code < 24
    ensures Decode([0xE0 + code], 256) == Ok(Decoded(Simple(code), []))
  {
    hide ReadHead, Decode;
    InitialByte([0xE0 + code]);
    assert [0xE0 + code][1..] == [];
    MajorType([0xE0 + code], 256);
  }

  /** Floats keep their bits; simple values are false, true, null and undefined. */
  lemma SimpleExamples()
    ensures Decode([0xF4], 256) == Ok(Decoded(Simple(20), []))
    ensures Decode([0xF5], 256) == Ok(Decoded(Simple(21), []))
    ensures Decode([0xF6], 256) == Ok(Decoded(Simple(22), []))
    ensures Decode([0xF7], 256) == Ok(Decoded(Simple(23), []))
    ensures Decode([0xF9, 0x3C, 0x00], 256) == Ok(Decoded(Float(2, 0x3C00), []))
  {
    hide Decode;
    SimpleReads(20);
    SimpleReads(21);
    SimpleReads(22);
    SimpleReads(23);
    FloatExample();
  }

  lemma RejectedExamples()
    ensures Decode([], 256) == Err(UnexpectedEnd)
    ensures Decode([0xF0], 256) == Err(Unsupported)
    ensures Decode([0x1C], 256) == Err(Syntax)
    ensures Decode([0xFF], 256) == Err(Syntax)
  {
    hide FromBigEndian;
  }

  lemma FloatExample()
    ensures Decode([0xF9, 0x3C, 0x00], 256) == Ok(Decoded(Float(2, 0x3C00), []))
  {
    hide ReadHead, Decode;
    InitialByte([0xF9, 0x3C, 0x00]);
    assert [0xF9, 0x3C, 0x00][3..] == [];
    MajorType([0xF9, 0x3C, 0x00], 256);
  }
}
