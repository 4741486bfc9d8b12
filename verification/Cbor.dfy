/** CBOR (RFC 8949) as COSE envelopes use it: values, an encoder and a decoder. */
module Cbor {
  import opened Basics
  import opened Errors
  import opened Utf8

  /** A CBOR item; a map lists its keys and values alternately. */
  datatype Value =
    | Int(n: int)
    | Bytes(bytes: seq<byte>)
    | Text(utf8: seq<byte>)
    | Array(items: seq<Value>)
    | Map(flat: seq<Value>)
    | Tag(tag: nat, inner: Value)
    | Float(width: nat, bits: nat)  // the bits of a float of 2, 4 or 8 bytes
    | Simple(code: nat)             // 20 to 23: false, true, null and undefined

  /** How many arrays, maps and tags the decoder is willing to nest. */
  const RECURSION_LIMIT: nat := 256

  /** Values that the heads of section 3 of RFC 8949 can represent. */
  predicate Encodable(v: Value)
    decreases v
  {
    match v
    case Int(n) => -TWO_TO_64 <= n < TWO_TO_64
    case Bytes(b) => |b| < TWO_TO_64
    case Text(s) => |s| < TWO_TO_64 && IsUtf8(s)
    case Array(items) => |items| < TWO_TO_64 && EncodableItems(items)
    case Map(flat) => |flat| % 2 == 0 && |flat| / 2 < TWO_TO_64 && EncodableItems(flat)
    case Tag(tag, inner) => tag < TWO_TO_64 && Encodable(inner)
    case Float(width, bits) => width >= 2 && Fits(bits, width)
    case Simple(code) => 20 <= code < 24
  }

  predicate EncodableItems(items: seq<Value>)
    decreases items
  {
    items == [] || (Encodable(items[0]) && EncodableItems(items[1..]))
  }

  /** The number of containers around the deepest part of a value. */
  function Nesting(v: Value): nat
    decreases v
  {
    match v
    case Array(items) => 1 + NestingItems(items)
    case Map(flat) => 1 + NestingItems(flat)
    case Tag(_, inner) => 1 + Nesting(inner)
    case _ => 0
  }

  function NestingItems(items: seq<Value>): nat
    decreases items
  {
    if items == [] then 0 else Max(Nesting(items[0]), NestingItems(items[1..]))
  }

  lemma ConsItems(v: Value, items: seq<Value>)
    ensures EncodableItems([v] + items) <==> Encodable(v) && EncodableItems(items)
    ensures NestingItems([v] + items) == Max(Nesting(v), NestingItems(items))
  {
    assert ([v] + items)[1..] == items;
  }

  // ----- Heads -----

  type Major = m: nat | m < 8

  /** The low bits of an initial byte that announce an argument of `w` bytes, or are the argument when `w` is 0. */
  function InfoOf(n: nat, w: nat): nat {
    match w
    case 0 => n
    case 1 => 24
    case 2 => 25
    case 4 => 26
    case _ => 27
  }

  /** Bytes of argument that follow an initial byte with low bits `info`. */
  function ArgumentWidth(info: nat): nat {
    match info
    case 24 => 1
    case 25 => 2
    case 26 => 4
    case 27 => 8
    case _ => 0
  }

  /** `n` can be the argument of a head with `w` bytes of argument. */
  predicate Fits(n: nat, w: nat) {
    if w == 0 then n < 24 else (w == 1 || w == 2 || w == 4 || w == 8) && n < Pow256(w)
  }

  /** An initial byte and its argument, in one of the five forms. */
  function WriteHead(major: Major, n: nat, w: nat): (s: seq<byte>)
    requires Fits(n, w)
    ensures s != [] && s[0] != BREAK
  {
    [major * 32 + InfoOf(n, w)] + BigEndian(n, w)
  }

  function ShortestWidth(n: u64): (w: nat)
    ensures Fits(n, w)
  {
    Pow256Widths();
    if n < 24 then 0 else if n < 0x100 then 1 else if n < 0x1_0000 then 2 else if n < TWO_TO_32 then 4 else 8
  }

  function EncodeHead(major: Major, n: u64): seq<byte> {
    WriteHead(major, n, ShortestWidth(n))
  }

  datatype Head = Head(major: Major, info: nat, argument: nat, rest: seq<byte>)

  /** The low bits of an initial byte that leave the length open, to be ended by a break. */
  const OPEN: nat := 31

  const BREAK: byte := 0xFF

  /** Reads a head in any of its forms, shortest or not. */
  function ReadHead(buf: seq<byte>): (r: Result<Head, CborFault>)
    ensures r.Ok? ==> |r.value.rest| < |buf|
  {
    if buf == [] then Err(UnexpectedEnd)
    else
      var major, info := buf[0] / 32, buf[0] % 32;
      var w := ArgumentWidth(info);
      if 27 < info < OPEN then Err(Syntax)
      else if |buf| < 1 + w then Err(UnexpectedEnd)
      else Ok(Head(major, info, if w == 0 then info else FromBigEndian(buf[1..1 + w]), buf[1 + w..]))
  }

  // ----- Encoding -----

  /** The encoding with definite lengths and shortest heads. */
  function Encode(v: Value): seq<byte>
    requires Encodable(v)
    decreases v
  {
    match v
    case Int(n) => if n >= 0 then EncodeHead(0, n) else EncodeHead(1, -1 - n)
    case Bytes(b) => EncodeHead(2, |b|) + b
    case Text(s) => EncodeHead(3, |s|) + s
    case Array(items) => EncodeHead(4, |items|) + EncodeItems(items)
    case Map(flat) => EncodeHead(5, |flat| / 2) + EncodeItems(flat)
    case Tag(tag, inner) => EncodeHead(6, tag) + Encode(inner)
    case Float(width, bits) => WriteHead(7, bits, width)
    case Simple(code) => WriteHead(7, code, 0)
  }

  function EncodeItems(items: seq<Value>): seq<byte>
    requires EncodableItems(items)
    decreases items
  {
    if items == [] then [] else Encode(items[0]) + EncodeItems(items[1..])
  }

  /** Four items in a row. */
  lemma FourItems(a: Value, b: Value, c: Value, d: Value)
    ensures NestingItems([a, b, c, d]) == Max(Nesting(a), Max(Nesting(b), Max(Nesting(c), Nesting(d))))
    ensures EncodableItems([a, b, c, d]) <==> Encodable(a) && Encodable(b) && Encodable(c) && Encodable(d)
  {
    hide Encodable, Nesting;
    assert [a, b, c, d] == [a] + ([b] + ([c] + ([d] + [])));
    ConsItems(d, []);
    ConsItems(c, [d]);
    ConsItems(b, [c, d]);
    ConsItems(a, [b, c, d]);
  }

  lemma EncodeCons(v: Value, items: seq<Value>)
    requires Encodable(v) && EncodableItems(items)
    ensures EncodableItems([v] + items)
    ensures EncodeItems([v] + items) == Encode(v) + EncodeItems(items)
  {
    hide Encodable, Encode;
    assert ([v] + items)[1..] == items;
  }

  /** Their encoding. */
  lemma EncodeFour(a: Value, b: Value, c: Value, d: Value)
    requires Encodable(a) && Encodable(b) && Encodable(c) && Encodable(d)
    ensures EncodableItems([a, b, c, d])
    ensures EncodeItems([a, b, c, d]) == Encode(a) + (Encode(b) + (Encode(c) + Encode(d)))
  {
    hide Encodable, Encode;
    assert [a, b, c, d] == [a] + [b, c, d] && [b, c, d] == [b] + [c, d] && [c, d] == [c] + [d] && [d] == [d] + [];
    EncodeCons(d, []);
    EncodeCons(c, [d]);
    EncodeCons(b, [c, d]);
    EncodeCons(a, [b, c, d]);
    assert EncodeItems([d]) == Encode(d);
  }

  // ----- Decoding -----

  datatype Decoded<T> = Decoded(value: T, rest: seq<byte>)

  function Take(buf: seq<byte>, n: nat): (r: Result<Decoded<seq<byte>>, CborFault>)
    ensures r.Ok? ==> |r.value.rest| <= |buf|
  {
    if |buf| < n then Err(UnexpectedEnd) else Ok(Decoded(buf[..n], buf[n..]))
  }

  /** A byte string (major type 2) or a text string (major type 3). */
  function StringValue(major: Major, s: seq<byte>): Value {
    if major == 3 then Text(s) else Bytes(s)
  }

  /** An array (major type 4) or a map (major type 5). */
  function ListValue(major: Major, items: seq<Value>): Value {
    if major == 5 then Map(items) else Array(items)
  }

  /** Items that a container with `n` elements, or `n` pairs, holds. */
  function ItemCount(major: Major, n: nat): nat {
    if major == 5 then 2 * n else n
  }

  /** Decodes the first item of `buf`, nesting at most `budget` containers, and leaves the bytes after it. */
  function Decode(buf: seq<byte>, budget: nat): (r: Result<Decoded<Value>, CborFault>)
    ensures r.Ok? ==> |r.value.rest| < |buf|
    decreases budget, 2, |buf|
  {
    var head :- ReadHead(buf);
    DecodeBody(head, budget)
  }

  /** Decodes what follows a head. */
  function DecodeBody(head: Head, budget: nat): (r: Result<Decoded<Value>, CborFault>)
    ensures r.Ok? ==> |r.value.rest| <= |head.rest|
    decreases budget, 1, |head.rest|
  {
    if head.info == OPEN then DecodeOpen(head.major, head.rest, budget)
    else
      match head.major
      case 0 => Ok(Decoded(Int(head.argument), head.rest))
      case 1 => Ok(Decoded(Int(-1 - head.argument), head.rest))
      case 6 =>
        if budget == 0 then Err(RecursionLimit)
        else
          var d :- Decode(head.rest, budget - 1);
          Ok(Decoded(Tag(head.argument, d.value), d.rest))
      case 7 => DecodeSimple(head)
      case _ =>
        if head.major < 4 then
          var d :- DecodeString(head.major, head.rest, head.argument);
          Ok(Decoded(StringValue(head.major, d.value), d.rest))
        else if budget == 0 then Err(RecursionLimit)
        else
          var d :- DecodeItems(head.rest, ItemCount(head.major, head.argument), budget - 1);
          Ok(Decoded(ListValue(head.major, d.value), d.rest))
  }

  /** Floats, and the simple values that have a meaning. */
  function DecodeSimple(head: Head): (r: Result<Decoded<Value>, CborFault>)
    ensures r.Ok? ==> r.value.rest == head.rest
  {
    if 25 <= head.info < 28 then Ok(Decoded(Float(ArgumentWidth(head.info), head.argument), head.rest))
    else if 20 <= head.info < 24 then Ok(Decoded(Simple(head.info), head.rest))
    else Err(Unsupported)
  }

  /** A string of `n` bytes. */
  function DecodeString(major: Major, buf: seq<byte>, n: nat): (r: Result<Decoded<seq<byte>>, CborFault>)
    ensures r.Ok? ==> |r.value.rest| <= |buf|
  {
    var d :- Take(buf, n);
    if major == 3 && !IsUtf8(d.value) then Err(InvalidUtf8) else Ok(d)
  }

  /** Decodes what follows a head that leaves the length open; no more than a 64-bit machine can hold. */
  function DecodeOpen(major: Major, buf: seq<byte>, budget: nat): (r: Result<Decoded<Value>, CborFault>)
    ensures r.Ok? ==> |r.value.rest| <= |buf|
    decreases budget, 0, |buf|
  {
    if major == 2 || major == 3 then
      var d :- DecodeChunks(major, buf);
      if |d.value| >= TWO_TO_64 then Err(TooLong) else Ok(Decoded(StringValue(major, d.value), d.rest))
    else if major == 4 || major == 5 then
      if budget == 0 then Err(RecursionLimit)
      else
        var d :- DecodeUntilBreak(buf, budget - 1);
        if major == 5 && |d.value| % 2 != 0 then Err(Syntax)
        else if |d.value| >= ItemCount(major, TWO_TO_64) then Err(TooLong)
        else Ok(Decoded(ListValue(major, d.value), d.rest))
    else Err(Syntax)
  }

  /** Joins strings of definite length up to a break. */
  function DecodeChunks(major: Major, buf: seq<byte>): (r: Result<Decoded<seq<byte>>, CborFault>)
    ensures r.Ok? ==> |r.value.rest| <= |buf|
    decreases |buf|
  {
    if buf != [] && buf[0] == BREAK then Ok(Decoded([], buf[1..]))
    else
      var head :- ReadHead(buf);
      if head.major != major || head.info == OPEN then Err(Syntax)
      else
        var first :- DecodeString(major, head.rest, head.argument);
        var others :- DecodeChunks(major, first.rest);
        Ok(Decoded(first.value + others.value, others.rest))
  }

  function DecodeUntilBreak(buf: seq<byte>, budget: nat): (r: Result<Decoded<seq<Value>>, CborFault>)
    ensures r.Ok? ==> |r.value.rest| <= |buf|
    decreases budget, |buf| + 3, 0
  {
    if buf != [] && buf[0] == BREAK then Ok(Decoded([], buf[1..]))
    else
      var first :- Decode(buf, budget);
      var others :- DecodeUntilBreak(first.rest, budget);
      Ok(Decoded([first.value] + others.value, others.rest))
  }

  function DecodeItems(buf: seq<byte>, count: nat, budget: nat): (r: Result<Decoded<seq<Value>>, CborFault>)
    ensures r.Ok? ==> |r.value.rest| <= |buf|
    decreases budget, count + 3, 0
  {
    if count == 0 then Ok(Decoded([], buf))
    else
      var first :- Decode(buf, budget);
      var others :- DecodeItems(first.rest, count - 1, budget);
      Ok(Decoded([first.value] + others.value, others.rest))
  }
}
