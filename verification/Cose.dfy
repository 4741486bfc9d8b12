/** COSE_Sign1 envelopes (section 4.2 of RFC 8152) and the bytes their signature covers (section 4.4). */
module Cose {
  import opened Basics
  import opened Errors
  import opened Utf8
  import C = Cbor
  import F = CborForms

  datatype CoseSign1 = CoseSign1(protected: Blob, payload: Blob, signature: Blob)

  const COSE_SIGN1_TAG: nat := 18

  /** The array inside an envelope, with or without tag 18. */
  function EnvelopeItems(v: C.Value): Result<seq<C.Value>, VerifierError> {
    match v
    case Array(items) => Ok(items)
    case Tag(tag, inner) =>
      if tag != COSE_SIGN1_TAG then Err(CoseFormat(NotArrayOrTag))
      else if inner.Array? then Ok(inner.items)
      else Err(CoseFormat(TaggedNotArray))
    case _ => Err(CoseFormat(NotArrayOrTag))
  }

  function ExtractBytes(v: C.Value, element: nat): Result<Blob, VerifierError>
    requires C.Encodable(v)
  {
    if v.Bytes? then Ok(v.bytes) else Err(CoseFormat(NotBytes(element)))
  }

  /** What `from_bytes` returns. */
  function ParseCose(bytes: seq<byte>): Result<CoseSign1, VerifierError> {
    match C.Decode(bytes, C.RECURSION_LIMIT)
    case Err(fault) => Err(Cbor(fault))
    case Ok(decoded) =>
      F.DecodeSound(bytes, C.RECURSION_LIMIT);
      var items :- EnvelopeItems(decoded.value);
      if |items| != 4 then Err(CoseFormat(WrongLength(|items|)))
      else
        ItemsAreEncodable(items);
        var protected :- ExtractBytes(items[0], 0);
        var payload :- ExtractBytes(items[2], 2);
        var signature :- ExtractBytes(items[3], 3);
        Ok(CoseSign1(protected, payload, signature))
  }

  /** What parsing makes of a decoded item, case by case. */
  lemma ParseCoseOutcome(bytes: seq<byte>)
    ensures match C.Decode(bytes, 256)
            case Err(fault) => ParseCose(bytes) == Err(Cbor(fault))
            case Ok(Decoded(Array(items), _)) => ItemsOutcome(items, ParseCose(bytes))
            case Ok(Decoded(Tag(tag, Array(items)), _)) =>
              if tag == 18 then ItemsOutcome(items, ParseCose(bytes))
              else ParseCose(bytes) == Err(CoseFormat(NotArrayOrTag))
            case Ok(Decoded(Tag(tag, _), _)) =>
              ParseCose(bytes) == Err(CoseFormat(if tag == 18 then TaggedNotArray else NotArrayOrTag))
            case Ok(_) => ParseCose(bytes) == Err(CoseFormat(NotArrayOrTag))
  {
    hide C.Decode, C.Encodable;
  }

  /** The outcome for the elements of the array: the three byte strings, or the first thing wrong with them. */
  predicate ItemsOutcome(items: seq<C.Value>, r: Result<CoseSign1, VerifierError>) {
    if |items| != 4 then r == Err(CoseFormat(WrongLength(|items|)))
    else if !items[0].Bytes? then r == Err(CoseFormat(NotBytes(0)))
    else if !items[2].Bytes? then r == Err(CoseFormat(NotBytes(2)))
    else if !items[3].Bytes? then r == Err(CoseFormat(NotBytes(3)))
    else
      && r.Ok?
      && r.value.protected == items[0].bytes
      && r.value.payload == items[2].bytes
      && r.value.signature == items[3].bytes
  }

  lemma {:induction false} ItemsAreEncodable(items: seq<C.Value>)
    requires C.EncodableItems(items)
    ensures forall i :: 0 <= i < |items| ==> C.Encodable(items[i])
    decreases |items|
  {
    if items != [] {
      ItemsAreEncodable(items[1..]);
      forall i | 0 <= i < |items|
        ensures C.Encodable(items[i])
      {
        assert i > 0 ==> items[i] == items[1..][i - 1];
      }
    }
  }

  /** `from_bytes`, which takes the four elements off the front of a mutable iterator. */
  method FromBytes(bytes: seq<byte>) returns (r: Result<CoseSign1, VerifierError>)
    ensures r == ParseCose(bytes)
  {
    var decoded := C.Decode(bytes, C.RECURSION_LIMIT);
    if decoded.Err? {
      return Err(Cbor(decoded.error));
    }
    F.DecodeSound(bytes, C.RECURSION_LIMIT);
    var items :- EnvelopeItems(decoded.value.value);
    if |items| != 4 {
      return Err(CoseFormat(WrongLength(|items|)));
    }
    ItemsAreEncodable(items);
    var iter := items;
    var protected :- ExtractBytes(iter[0], 0);
    iter := iter[1..];
    iter := iter[1..];  // the unprotected header
    var payload :- ExtractBytes(iter[0], 2);
    iter := iter[1..];
    var signature :- ExtractBytes(iter[0], 3);
    return Ok(CoseSign1(protected, payload, signature));
  }

  // ----- Envelopes -----

  /** The value of an envelope with unprotected header `unprotected`. */
  function Envelope(c: CoseSign1, unprotected: C.Value, tagged: bool): C.Value {
    var elements := C.Array([C.Bytes(c.protected), unprotected, C.Bytes(c.payload), C.Bytes(c.signature)]);
    if tagged then C.Tag(COSE_SIGN1_TAG, elements) else elements
  }

  lemma EnvelopeNesting(c: CoseSign1, unprotected: C.Value, tagged: bool)
    ensures C.Nesting(Envelope(c, unprotected, tagged)) == C.Nesting(unprotected) + if tagged then 2 else 1
  {
    C.FourItems(C.Bytes(c.protected), unprotected, C.Bytes(c.payload), C.Bytes(c.signature));
  }

  lemma EnvelopeEncodable(c: CoseSign1, unprotected: C.Value, tagged: bool)
    requires C.Encodable(unprotected)
    ensures C.Encodable(Envelope(c, unprotected, tagged))
    ensures C.Nesting(Envelope(c, unprotected, tagged)) == C.Nesting(unprotected) + if tagged then 2 else 1
  {
    EnvelopeNesting(c, unprotected, tagged);
    C.FourItems(C.Bytes(c.protected), unprotected, C.Bytes(c.payload), C.Bytes(c.signature));
  }

  /**
   * Parsing an encoded envelope returns its three byte strings, whatever follows it, with or without tag 18,
   * if and only if the unprotected header is nested within what the decoder's limit leaves for it.
   */
  lemma CoseRoundTrip(c: CoseSign1, unprotected: C.Value, tagged: bool, rest: seq<byte>)
    requires C.Encodable(unprotected)
    ensures C.Encodable(Envelope(c, unprotected, tagged))
    ensures ParseCose(C.Encode(Envelope(c, unprotected, tagged)) + rest)
            == if C.Nesting(unprotected) + (if tagged then 2 else 1) <= C.RECURSION_LIMIT
               then Ok(c) else Err(Cbor(RecursionLimit))
  {
    EnvelopeEncodable(c, unprotected, tagged);
    F.RoundTrip(Envelope(c, unprotected, tagged), C.RECURSION_LIMIT, rest);
  }

  /** An envelope's bytes: tag 18 is 0xD2, an array of four is 0x84, and the elements follow in this order. */
  lemma EnvelopeLayout(c: CoseSign1, unprotected: C.Value, tagged: bool)
    requires C.Encodable(unprotected)
    ensures C.Encodable(Envelope(c, unprotected, tagged))
    ensures C.Encode(Envelope(c, unprotected, tagged))
            == (if tagged then [0xD2] else [])
               + ([0x84]
                  + (C.EncodeHead(2, |c.protected|) + c.protected
                     + (C.Encode(unprotected)
                        + (C.EncodeHead(2, |c.payload|) + c.payload
                           + (C.EncodeHead(2, |c.signature|) + c.signature)))))
  {
    EnvelopeEncodable(c, unprotected, tagged);
    EnvelopeArrayLayout(c, unprotected);
    if tagged {
      ShortHead(6, 18);
    }
  }

  lemma EnvelopeArrayLayout(c: CoseSign1, unprotected: C.Value)
    requires C.Encodable(unprotected)
    ensures C.Encodable(Envelope(c, unprotected, false))
    ensures C.Encode(Envelope(c, unprotected, false))
            == [0x84]
               + (C.EncodeHead(2, |c.protected|) + c.protected
                  + (C.Encode(unprotected)
                     + (C.EncodeHead(2, |c.payload|) + c.payload
                        + (C.EncodeHead(2, |c.signature|) + c.signature))))
  {
    EnvelopeEncodable(c, unprotected, false);
    ByteStringWritten(c.protected);
    ByteStringWritten(c.payload);
    ByteStringWritten(c.signature);
    hide C.EncodeItems, C.EncodableItems, C.Encode, C.EncodeHead;
    ArrayOfFourWritten([C.Bytes(c.protected), unprotected, C.Bytes(c.payload), C.Bytes(c.signature)]);
    C.EncodeFour(C.Bytes(c.protected), unprotected, C.Bytes(c.payload), C.Bytes(c.signature));
  }

  /** `s` is one of the ways to write an envelope that holds the byte strings of `c`, and is not nested too deeply. */
  ghost predicate WritesEnvelope(s: seq<byte>, c: CoseSign1) {
    exists unprotected: C.Value, tagged: bool ::
      && F.Represents(s, Envelope(c, unprotected, tagged))
      && C.Nesting(unprotected) + (if tagged then 2 else 1) <= C.RECURSION_LIMIT
  }

  /** Parsing succeeds on exactly the inputs that begin with an envelope, in whatever form its items are written. */
  lemma ParseCoseExact(bytes: seq<byte>, c: CoseSign1)
    ensures ParseCose(bytes) == Ok(c) <==> exists s :: s <= bytes && WritesEnvelope(s, c)
  {
    hide C.Decode, C.Nesting, C.Encodable, F.Represents;
    if ParseCose(bytes) == Ok(c) {
      var s := EnvelopeRead(bytes, c);
    }
    if s :| s <= bytes && WritesEnvelope(s, c) {
      EnvelopeParses(bytes, c, s);
    }
  }

  lemma EnvelopeRead(bytes: seq<byte>, c: CoseSign1) returns (s: seq<byte>)
    requires ParseCose(bytes) == Ok(c)
    ensures s <= bytes && WritesEnvelope(s, c)
  {
    hide C.Decode, F.Represents;
    F.DecodeSound(bytes, C.RECURSION_LIMIT);
    var d := C.Decode(bytes, C.RECURSION_LIMIT).value;
    var items := EnvelopeItems(d.value).value;
    assert items == [C.Bytes(c.protected), items[1], C.Bytes(c.payload), C.Bytes(c.signature)];
    ItemsAreEncodable(items);
    assert d.value == Envelope(c, items[1], d.value.Tag?);
    EnvelopeEncodable(c, items[1], d.value.Tag?);
    F.DecodeExact(bytes, C.RECURSION_LIMIT, d.value, d.rest);
    s :| F.Represents(s, d.value) && bytes == s + d.rest;
  }

  lemma EnvelopeParses(bytes: seq<byte>, c: CoseSign1, s: seq<byte>)
    requires s <= bytes && WritesEnvelope(s, c)
    ensures ParseCose(bytes) == Ok(c)
  {
    hide C.Decode, F.Represents;
    var unprotected, tagged :|
      && F.Represents(s, Envelope(c, unprotected, tagged))
      && C.Nesting(unprotected) + (if tagged then 2 else 1) <= C.RECURSION_LIMIT;
    EnvelopeNesting(c, unprotected, tagged);
    assert bytes == s + bytes[|s|..];
    F.DecodeExact(bytes, C.RECURSION_LIMIT, Envelope(c, unprotected, tagged), bytes[|s|..]);
  }

  // ----- Signed bytes -----

  /** "Signature1" */
  const SIGNATURE1: seq<byte> := [0x53, 0x69, 0x67, 0x6E, 0x61, 0x74, 0x75, 0x72, 0x65, 0x31]

  lemma ContextIsText()
    ensures C.Encodable(C.Text(SIGNATURE1))
  {
    AsciiIsUtf8(SIGNATURE1);
  }

  function SigStructureItems(protected: Blob, payload: Blob): (items: seq<C.Value>)
    ensures C.EncodableItems(items)
  {
    ContextIsText();
    C.FourItems(C.Text(SIGNATURE1), C.Bytes(protected), C.Bytes([]), C.Bytes(payload));
    [C.Text(SIGNATURE1), C.Bytes(protected), C.Bytes([]), C.Bytes(payload)]
  }

  /** The to-be-signed bytes: an array of the context string, the protected header, no external data, the payload. */
  function SigStructure(protected: Blob, payload: Blob): seq<byte> {
    C.Encode(C.Array(SigStructureItems(protected, payload)))
  }

  function ContextString(): seq<byte> {
    [0x6A] + SIGNATURE1
  }

  function ByteString(b: Blob): seq<byte> {
    C.EncodeHead(2, |b|) + b
  }

  lemma ContextWritten()
    ensures C.Encodable(C.Text(SIGNATURE1))
    ensures C.Encode(C.Text(SIGNATURE1)) == ContextString()
  {
    ContextIsText();
    ShortHead(3, 10);
  }

  /** A small argument takes no bytes of its own. */
  lemma ShortHead(major: C.Major, n: nat)
    requires n < 24
    ensures C.EncodeHead(major, n) == [major * 32 + n]
  {
  }

  lemma ByteStringWritten(b: Blob)
    ensures C.Encode(C.Bytes(b)) == ByteString(b)
  {
  }

  lemma EmptyStringWritten()
    ensures C.Encode(C.Bytes([])) == [0x40]
  {
    ShortHead(2, 0);
  }

  lemma ArrayOfFourWritten(items: seq<C.Value>)
    requires |items| == 4 && C.EncodableItems(items)
    ensures C.Encode(C.Array(items)) == [0x84] + C.EncodeItems(items)
  {
    ShortHead(4, 4);
  }

  /** The layout of section 4.4 of RFC 8152. */
  lemma SigStructureLayout(protected: Blob, payload: Blob)
    ensures SigStructure(protected, payload)
            == [0x84]
               + ([0x6A, 0x53, 0x69, 0x67, 0x6E, 0x61, 0x74, 0x75, 0x72, 0x65, 0x31]
                  + (C.EncodeHead(2, |protected|) + protected
                     + ([0x40]
                        + (C.EncodeHead(2, |payload|) + payload))))
  {
    assert ContextString() == [0x6A, 0x53, 0x69, 0x67, 0x6E, 0x61, 0x74, 0x75, 0x72, 0x65, 0x31];
    assert ByteString(protected) == C.EncodeHead(2, |protected|) + protected;
    assert ByteString(payload) == C.EncodeHead(2, |payload|) + payload;
    hide C.EncodeItems, C.EncodableItems, C.Encode, C.EncodeHead, ContextString, ByteString;
    ContextWritten();
    ByteStringWritten(protected);
    ByteStringWritten(payload);
    EmptyStringWritten();
    ArrayOfFourWritten(SigStructureItems(protected, payload));
    C.EncodeFour(C.Text(SIGNATURE1), C.Bytes(protected), C.Bytes([]), C.Bytes(payload));
  }

  /**
   * `sig_structure`: writes the array head and the four elements into a buffer, one after another. What the buffer
   * holds in the end reads back as an array of those elements and nothing else.
   */
  method WriteSigStructure(c: CoseSign1) returns (buf: seq<byte>)
    ensures buf == SigStructure(c.protected, c.payload)
    ensures C.Decode(buf, 1) == Ok(C.Decoded(C.Array(SigStructureItems(c.protected, c.payload)), []))
    ensures |buf| > 12 && buf[0] == 0x84 && buf[1] == 0x6A
    ensures forall i :: 0 <= i < 10 ==> buf[2 + i] == "Signature1"[i] as int
  {
    buf := [0x84];
    buf := buf + [0x6A] + SIGNATURE1;
    buf := buf + C.EncodeHead(2, |c.protected|) + c.protected;
    buf := buf + [0x40];
    buf := buf + C.EncodeHead(2, |c.payload|) + c.payload;
    SigStructureWritten(c.protected, c.payload, buf);
    ContextAt(c.protected, c.payload);
  }

  /** The third to twelfth of the signed bytes spell the context. */
  lemma ContextAt(protected: Blob, payload: Blob)
    ensures var buf := SigStructure(protected, payload);
            && |buf| > 12 && buf[0] == 0x84 && buf[1] == 0x6A
            && forall i :: 0 <= i < 10 ==> buf[2 + i] == "Signature1"[i] as int
  {
    hide SigStructure;
    SigStructureLayout(protected, payload);
    var buf, text := SigStructure(protected, payload), "Signature1";
    assert buf[..12] == [0x84, 0x6A, 0x53, 0x69, 0x67, 0x6E, 0x61, 0x74, 0x75, 0x72, 0x65, 0x31];
    forall i | 0 <= i < 10
      ensures buf[2 + i] == text[i] as int
    {
      assert buf[2 + i] == buf[..12][2 + i];
    }
  }

  lemma SigStructureWritten(protected: Blob, payload: Blob, buf: seq<byte>)
    requires buf == [0x84] + [0x6A] + SIGNATURE1 + C.EncodeHead(2, |protected|) + protected + [0x40]
                    + C.EncodeHead(2, |payload|) + payload
    ensures buf == SigStructure(protected, payload)
    ensures C.Decode(buf, 1) == Ok(C.Decoded(C.Array(SigStructureItems(protected, payload)), []))
  {
    hide C.EncodeHead, C.Decode, SigStructure;
    SigStructureLayout(protected, payload);
    assert [0x6A] + SIGNATURE1 == [0x6A, 0x53, 0x69, 0x67, 0x6E, 0x61, 0x74, 0x75, 0x72, 0x65, 0x31];
    assert buf == SigStructure(protected, payload);
    SigStructureReads(protected, payload);
  }

  lemma SigStructureReads(protected: Blob, payload: Blob)
    ensures C.Decode(SigStructure(protected, payload), 1)
            == Ok(C.Decoded(C.Array(SigStructureItems(protected, payload)), []))
  {
    hide C.Decode, C.Encode;
    var v := C.Array(SigStructureItems(protected, payload));
    C.FourItems(C.Text(SIGNATURE1), C.Bytes(protected), C.Bytes([]), C.Bytes(payload));
    assert SigStructure(protected, payload) + [] == SigStructure(protected, payload);
    F.RoundTrip(v, 1, []);
  }

  /** The signed bytes determine what was signed, even as the beginning of a longer string. */
  lemma SigStructureInjective(protected: Blob, payload: Blob, protected': Blob, payload': Blob,
                              after: seq<byte>, after': seq<byte>)
    requires SigStructure(protected, payload) + after == SigStructure(protected', payload') + after'
    ensures protected == protected' && payload == payload' && after == after'
  {
    hide C.Encode, C.Encodable;
    var items, items' := SigStructureItems(protected, payload), SigStructureItems(protected', payload');
    F.EncodingPrefixFree(C.Array(items), C.Array(items'), after, after');
    assert items[1] == C.Bytes(protected) && items'[1] == C.Bytes(protected');
    assert items[3] == C.Bytes(payload) && items'[3] == C.Bytes(payload');
  }
}
