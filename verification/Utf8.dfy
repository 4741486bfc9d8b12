/** Well-formed UTF-8, as strings of the attestation document and of the journal must be. */
module Utf8 {
  import opened Basics

  predicate Continues(s: seq<byte>, count: nat) {
    1 + count <= |s| && forall i :: 1 <= i < 1 + count ==> 0x80 <= s[i] <= 0xBF
  }

  /** The length of the character that `s` begins with (section 4 of RFC 3629), or 0 if there is none. */
  function FirstCharacter(s: seq<byte>): (n: nat)
    ensures n <= |s|
  {
    if s == [] then 0
    else if s[0] < 0x80 then 1
    else if 0xC2 <= s[0] <= 0xDF && Continues(s, 1) then 2
    else if 0xE0 <= s[0] <= 0xEF && Continues(s, 2)
            && (s[0] == 0xE0 ==> s[1] >= 0xA0) && (s[0] == 0xED ==> s[1] <= 0x9F) then 3
    else if 0xF0 <= s[0] <= 0xF4 && Continues(s, 3)
            && (s[0] == 0xF0 ==> s[1] >= 0x90) && (s[0] == 0xF4 ==> s[1] <= 0x8F) then 4
    else 0
  }

  predicate IsUtf8(s: seq<byte>)
    decreases |s|
  {
    s == [] || (FirstCharacter(s) > 0 && IsUtf8(s[FirstCharacter(s)..]))
  }

  type Utf8String = s: seq<byte> | IsUtf8(s)

  lemma {:induction false} AsciiIsUtf8(s: seq<byte>)
    requires forall i :: 0 <= i < |s| ==> s[i] < 0x80
    ensures IsUtf8(s)
    decreases |s|
  {
    if s != [] {
      AsciiIsUtf8(s[1..]);
    }
  }

  lemma FirstCharacterStays(s: seq<byte>, t: seq<byte>)
    requires FirstCharacter(s) > 0
    ensures FirstCharacter(s + t) == FirstCharacter(s)
  {
    assert forall i :: 0 <= i < |s| ==> (s + t)[i] == s[i];
  }

  lemma {:induction false} JoinedIsUtf8(s: seq<byte>, t: seq<byte>)
    requires IsUtf8(s) && IsUtf8(t)
    ensures IsUtf8(s + t)
    decreases |s|
  {
    hide FirstCharacter;
    if s == [] {
      assert s + t == t;
    } else {
      var n := FirstCharacter(s);
      FirstCharacterStays(s, t);
      JoinedIsUtf8(s[n..], t);
      assert (s + t)[n..] == s[n..] + t;
    }
  }

  // ----- Text as encoded characters -----

  /** A Unicode scalar value: a code point that is not a surrogate. */
  predicate IsScalar(c: nat) {
    c < 0xD800 || 0xE000 <= c < 0x11_0000
  }

  /** The code point in the bits of one to four bytes (section 3 of RFC 3629). */
  function CodePoint(s: seq<byte>): int
    requires 1 <= |s| <= 4
  {
    match |s|
    case 1 => s[0]
    case 2 => (s[0] as int - 0xC0) * 0x40 + (s[1] as int - 0x80)
    case 3 => (s[0] as int - 0xE0) * 0x1000 + (s[1] as int - 0x80) * 0x40 + (s[2] as int - 0x80)
    case _ =>
      (s[0] as int - 0xF0) * 0x4_0000 + (s[1] as int - 0x80) * 0x1000 + (s[2] as int - 0x80) * 0x40
      + (s[3] as int - 0x80)
  }

  /** The encoding of one character. */
  function EncodeScalar(c: nat): (s: seq<byte>)
    requires IsScalar(c)
    ensures |s| == if c < 0x80 then 1 else if c < 0x800 then 2 else if c < 0x1_0000 then 3 else 4
    ensures forall i :: 1 <= i < |s| ==> 0x80 <= s[i] < 0xC0
  {
    if c < 0x80 then [c]
    else if c < 0x800 then [0xC0 + c / 0x40, 0x80 + c % 0x40]
    else if c < 0x1_0000 then [0xE0 + c / 0x1000, 0x80 + c / 0x40 % 0x40, 0x80 + c % 0x40]
    else [0xF0 + c / 0x4_0000, 0x80 + c / 0x1000 % 0x40, 0x80 + c / 0x40 % 0x40, 0x80 + c % 0x40]
  }

  lemma EncodeScalarExact(c: nat)
    requires IsScalar(c)
    ensures CodePoint(EncodeScalar(c)) == c
  {
    var d := c / 0x40;
    assert d / 0x40 == c / 0x1000 && c == d * 0x40 + c % 0x40;
    if c >= 0x1_0000 {
      assert c / 0x1000 / 0x40 == c / 0x4_0000;
    }
  }

  lemma TwoByteCharacter(x: byte, y: byte)
    requires 0xC2 <= x <= 0xDF && 0x80 <= y <= 0xBF
    ensures var c := CodePoint([x, y]); 0 <= c && IsScalar(c) && EncodeScalar(c) == [x, y]
  {
    var c := (x as int - 0xC0) * 0x40 + (y as int - 0x80);
    assert c / 0x40 == x - 0xC0 && c % 0x40 == y - 0x80;
  }

  lemma ThreeByteCharacter(x: byte, y: byte, z: byte)
    requires 0xE0 <= x <= 0xEF && 0x80 <= y <= 0xBF && 0x80 <= z <= 0xBF
    requires (x == 0xE0 ==> y >= 0xA0) && (x == 0xED ==> y <= 0x9F)
    ensures var c := CodePoint([x, y, z]); 0 <= c && IsScalar(c) && EncodeScalar(c) == [x, y, z]
  {
    var d := (x as int - 0xE0) * 0x40 + (y as int - 0x80);
    var c := d * 0x40 + (z as int - 0x80);
    assert c / 0x40 == d && c % 0x40 == z - 0x80;
    assert d % 0x40 == y - 0x80 && c / 0x1000 == x - 0xE0;
  }

  lemma SixBits(high: nat, low: nat, c: nat)
    requires low < 0x40 && c == high * 0x40 + low
    ensures c / 0x40 == high && c % 0x40 == low
  {
  }

  lemma FourByteCharacter(w: byte, x: byte, y: byte, z: byte)
    requires 0xF0 <= w <= 0xF4 && 0x80 <= x <= 0xBF && 0x80 <= y <= 0xBF && 0x80 <= z <= 0xBF
    requires (w == 0xF0 ==> x >= 0x90) && (w == 0xF4 ==> x <= 0x8F)
    ensures var c := CodePoint([w, x, y, z]); 0 <= c && IsScalar(c) && EncodeScalar(c) == [w, x, y, z]
  {
    var e := (w as int - 0xF0) * 0x40 + (x as int - 0x80);
    var d := e * 0x40 + (y as int - 0x80);
    var c := d * 0x40 + (z as int - 0x80);
    SixBits(w as int - 0xF0, x as int - 0x80, e);
    SixBits(e, y as int - 0x80, d);
    SixBits(d, z as int - 0x80, c);
    assert c / 0x1000 == e && c / 0x4_0000 == w - 0xF0;
  }

  /** The character at the front of well-formed text. */
  lemma CharacterOf(s: seq<byte>) returns (c: nat)
    requires FirstCharacter(s) > 0
    ensures IsScalar(c) && EncodeScalar(c) == s[..FirstCharacter(s)]
  {
    hide IsScalar, EncodeScalar, CodePoint;
    var n := FirstCharacter(s);
    if n == 1 {
      c := s[0];
      OneByteCharacter(s[0]);
    } else if n == 2 {
      TwoByteCharacter(s[0], s[1]);
      c := CodePoint([s[0], s[1]]);
    } else if n == 3 {
      ThreeByteCharacter(s[0], s[1], s[2]);
      c := CodePoint([s[0], s[1], s[2]]);
    } else {
      FourByteCharacter(s[0], s[1], s[2], s[3]);
      c := CodePoint([s[0], s[1], s[2], s[3]]);
    }
  }

  lemma OneByteCharacter(x: byte)
    requires x < 0x80
    ensures IsScalar(x) && EncodeScalar(x) == [x]
  {
  }

  lemma ScalarIsCharacter(c: nat)
    requires IsScalar(c)
    ensures FirstCharacter(EncodeScalar(c)) == |EncodeScalar(c)|
  {
    if 0x800 <= c < 0x1_0000 {
      LeadOfThree(c);
    } else if 0x1_0000 <= c {
      LeadOfFour(c);
    }
  }

  lemma LeadOfThree(c: nat)
    requires IsScalar(c) && 0x800 <= c < 0x1_0000
    ensures FirstCharacter(EncodeScalar(c)) == 3
  {
    var x, y := c / 0x1000, c / 0x40 % 0x40;
    assert c / 0x40 / 0x40 == x && c / 0x40 == x * 0x40 + y;
    assert x == 0 ==> y >= 0x20;
    assert x == 0xD ==> y < 0x20;
  }

  lemma LeadOfFour(c: nat)
    requires IsScalar(c) && 0x1_0000 <= c
    ensures FirstCharacter(EncodeScalar(c)) == 4
  {
    var x, y := c / 0x4_0000, c / 0x1000 % 0x40;
    assert c / 0x1000 / 0x40 == x && c / 0x1000 == x * 0x40 + y;
    assert x == 0 ==> y >= 0x10;
    assert x == 4 ==> y < 0x10;
  }

  predicate AreScalars(cs: seq<nat>) {
    forall i :: 0 <= i < |cs| ==> IsScalar(cs[i])
  }

  function EncodeScalars(cs: seq<nat>): seq<byte>
    requires AreScalars(cs)
  {
    if cs == [] then [] else EncodeScalar(cs[0]) + EncodeScalars(cs[1..])
  }

  lemma {:induction false} TextIsScalars(s: seq<byte>) returns (cs: seq<nat>)
    requires IsUtf8(s)
    ensures AreScalars(cs) && EncodeScalars(cs) == s
    decreases |s|
  {
    hide FirstCharacter, EncodeScalar, IsScalar;
    if s == [] {
      cs := [];
    } else {
      var n := FirstCharacter(s);
      var c := CharacterOf(s);
      var others := TextIsScalars(s[n..]);
      cs := [c] + others;
      assert cs[1..] == others && s == s[..n] + s[n..];
    }
  }

  lemma {:induction false} ScalarsAreText(cs: seq<nat>)
    requires AreScalars(cs)
    ensures IsUtf8(EncodeScalars(cs))
  {
    hide FirstCharacter, EncodeScalar, IsScalar;
    if cs != [] {
      ScalarIsCharacter(cs[0]);
      ScalarsAreText(cs[1..]);
      var s := EncodeScalar(cs[0]);
      assert s[|s|..] == [];
      JoinedIsUtf8(s, EncodeScalars(cs[1..]));
    }
  }

  /** Well-formed text is exactly what encoding characters yields. */
  lemma Utf8Exact(s: seq<byte>)
    ensures IsUtf8(s) <==> exists cs :: AreScalars(cs) && EncodeScalars(cs) == s
  {
    hide IsScalar, EncodeScalars, AreScalars;
    if IsUtf8(s) {
      var cs := TextIsScalars(s);
    }
    if cs :| AreScalars(cs) && EncodeScalars(cs) == s {
      ScalarsAreText(cs);
    }
  }
}
