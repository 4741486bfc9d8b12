/** All the ways to write a CBOR item, and their relation to the decoder and the encoder. */
module CborForms {
  import opened Basics
  import opened Errors
  import opened Utf8
  import opened Cbor

  /** A piece of a string whose length is left open. */
  datatype Chunk = Chunk(width: nat, bytes: seq<byte>)

  /** How an item is written: the width of every argument, and which lengths are left open (section 3.2 of RFC 8949). */
  datatype Form =
    | Atom(major: Major, width: nat, n: nat)
    | Str(major: Major, width: nat, bytes: seq<byte>)
    | ChunkedStr(major: Major, chunks: seq<Chunk>)
    | List(major: Major, width: nat, items: seq<Form>)
    | OpenList(major: Major, items: seq<Form>)
    | Tagged(width: nat, tag: nat, inner: Form)

  predicate IsString(major: Major) {
    major == 2 || major == 3
  }

  predicate IsContainer(major: Major) {
    major == 4 || major == 5
  }

  predicate ValidString(major: Major, s: seq<byte>) {
    major == 3 ==> IsUtf8(s)
  }

  /** `n` items make up `Elements(major, n)` elements of an array or pairs of a map. */
  function Elements(major: Major, n: nat): nat {
    if major == 5 then n / 2 else n
  }

  predicate ValidCount(major: Major, n: nat) {
    (major == 5 ==> n % 2 == 0) && Elements(major, n) < TWO_TO_64
  }

  /** The form is one that RFC 8949 allows. */
  predicate Valid(f: Form)
    decreases f
  {
    match f
    case Atom(major, w, n) => Fits(n, w) && (major < 2 || (major == 7 && if w == 0 then 20 <= n else w > 1))
    case Str(major, w, s) => IsString(major) && Fits(|s|, w) && ValidString(major, s)
    case ChunkedStr(major, chunks) => IsString(major) && ValidChunks(major, chunks) && |Joined(chunks)| < TWO_TO_64
    case List(major, w, items) =>
      IsContainer(major) && ValidCount(major, |items|) && Fits(Elements(major, |items|), w) && ValidItems(items)
    case OpenList(major, items) => IsContainer(major) && ValidCount(major, |items|) && ValidItems(items)
    case Tagged(w, tag, inner) => Fits(tag, w) && Valid(inner)
  }

  predicate ValidItems(items: seq<Form>)
    decreases items
  {
    items == [] || (Valid(items[0]) && ValidItems(items[1..]))
  }

  predicate ValidChunks(major: Major, chunks: seq<Chunk>) {
    chunks == [] ||
    (Fits(|chunks[0].bytes|, chunks[0].width) && ValidString(major, chunks[0].bytes) && ValidChunks(major, chunks[1..]))
  }

  function Joined(chunks: seq<Chunk>): seq<byte> {
    if chunks == [] then [] else chunks[0].bytes + Joined(chunks[1..])
  }

  /** The value that a form stands for. */
  function Meaning(f: Form): Value
    decreases f
  {
    match f
    case Atom(major, w, n) =>
      if major == 0 then Int(n) else if major == 1 then Int(-1 - n) else if w == 0 then Simple(n) else Float(w, n)
    case Str(major, _, s) => StringValue(major, s)
    case ChunkedStr(major, chunks) => StringValue(major, Joined(chunks))
    case List(major, _, items) => ListValue(major, Meanings(items))
    case OpenList(major, items) => ListValue(major, Meanings(items))
    case Tagged(_, tag, inner) => Tag(tag, Meaning(inner))
  }

  function Meanings(items: seq<Form>): (vs: seq<Value>)
    ensures |vs| == |items|
    decreases items
  {
    if items == [] then [] else [Meaning(items[0])] + Meanings(items[1..])
  }

  /** The bytes of a form. */
  function Write(f: Form): (s: seq<byte>)
    requires Valid(f)
    ensures s != [] && s[0] != BREAK
    decreases f
  {
    match f
    case Atom(major, w, n) => WriteHead(major, n, w)
    case Str(major, w, s) => WriteHead(major, |s|, w) + s
    case ChunkedStr(major, chunks) => [major * 32 + OPEN] + WriteChunks(major, chunks)
    case List(major, w, items) => WriteHead(major, Elements(major, |items|), w) + WriteItems(items)
    case OpenList(major, items) => [major * 32 + OPEN] + (WriteItems(items) + [BREAK])
    case Tagged(w, tag, inner) => WriteHead(6, tag, w) + Write(inner)
  }

  function WriteItems(items: seq<Form>): seq<byte>
    requires ValidItems(items)
    decreases items
  {
    if items == [] then [] else Write(items[0]) + WriteItems(items[1..])
  }

  function WriteChunks(major: Major, chunks: seq<Chunk>): seq<byte>
    requires ValidChunks(major, chunks)
  {
    if chunks == [] then [BREAK]
    else WriteHead(major, |chunks[0].bytes|, chunks[0].width) + (chunks[0].bytes + WriteChunks(major, chunks[1..]))
  }

  /** `s` is one way to write `v`. */
  ghost predicate Represents(s: seq<byte>, v: Value) {
    exists f :: Valid(f) && Meaning(f) == v && Write(f) == s
  }

  // ----- Heads -----

  /** Every form of a head reads back. */
  lemma HeadRoundTrip(major: Major, n: nat, w: nat, rest: seq<byte>)
    requires Fits(n, w)
    ensures ReadHead(WriteHead(major, n, w) + rest) == Ok(Head(major, InfoOf(n, w), n, rest))
  {
    hide BigEndian, FromBigEndian, Pow256;
    var buf := WriteHead(major, n, w) + rest;
    if w > 0 {
      BigEndianRoundTrip(n, w);
      assert buf[1..1 + w] == BigEndian(n, w);
    }
    assert buf[1 + w..] == rest;
  }

  /** Every head that was read has one of the five forms, or leaves a length open. */
  lemma HeadExact(buf: seq<byte>)
    requires ReadHead(buf).Ok?
    ensures var h := ReadHead(buf).value;
            var w := ArgumentWidth(h.info);
            if h.info == OPEN then buf == [h.major * 32 + OPEN] + h.rest
            else
              && Fits(h.argument, w) && InfoOf(h.argument, w) == h.info
              && buf == WriteHead(h.major, h.argument, w) + h.rest
  {
    hide BigEndian, FromBigEndian, Pow256;
    var h := ReadHead(buf).value;
    var w := ArgumentWidth(h.info);
    if h.info != OPEN && w > 0 {
      FromBigEndianBound(buf[1..1 + w]);
      BigEndianOfBytes(buf[1..1 + w]);
    }
    assert buf == [buf[0]] + buf[1..1 + w] + h.rest;
  }

  // ----- What is written can be read -----

  /** What decoding yields for an item that is `depth` deep. */
  function Expected<T>(depth: nat, budget: nat, value: T, rest: seq<byte>): Result<Decoded<T>, CborFault> {
    if depth <= budget then Ok(Decoded(value, rest)) else Err(RecursionLimit)
  }

  /** A head followed by a body and by more bytes decodes to what the body decodes to. */
  lemma HeadThen(major: Major, n: nat, w: nat, body: seq<byte>, rest: seq<byte>, budget: nat)
    requires Fits(n, w)
    ensures Decode(WriteHead(major, n, w) + body + rest, budget)
            == DecodeBody(Head(major, InfoOf(n, w), n, body + rest), budget)
  {
    hide DecodeBody, ReadHead, WriteHead;
    HeadRoundTrip(major, n, w, body + rest);
    assert WriteHead(major, n, w) + body + rest == WriteHead(major, n, w) + (body + rest);
  }

  lemma OpenThen(major: Major, body: seq<byte>, rest: seq<byte>, budget: nat)
    ensures Decode([major * 32 + OPEN] + body + rest, budget) == DecodeOpen(major, body + rest, budget)
  {
    hide DecodeOpen;
    assert ([major * 32 + OPEN] + body + rest)[1..] == body + rest;
  }

  lemma AtomReads(f: Form, budget: nat, rest: seq<byte>)
    requires f.Atom? && Valid(f)
    ensures Decode(Write(f) + rest, budget) == Ok(Decoded(Meaning(f), rest))
  {
    HeadRoundTrip(f.major, f.n, f.width, rest);
  }

  lemma StringReads(major: Major, s: seq<byte>, rest: seq<byte>)
    requires ValidString(major, s)
    ensures DecodeString(major, s + rest, |s|) == Ok(Decoded(s, rest))
  {
    assert (s + rest)[..|s|] == s && (s + rest)[|s|..] == rest;
  }

  lemma {:induction false} ChunksRead(major: Major, chunks: seq<Chunk>, rest: seq<byte>)
    requires IsString(major) && ValidChunks(major, chunks)
    ensures DecodeChunks(major, WriteChunks(major, chunks) + rest) == Ok(Decoded(Joined(chunks), rest))
    decreases |chunks|
  {
    hide ReadHead, WriteHead, DecodeString, ValidString;
    if chunks == [] {
      assert ([BREAK] + rest)[1..] == rest;
    } else {
      var s, w, tail := chunks[0].bytes, chunks[0].width, WriteChunks(major, chunks[1..]) + rest;
      HeadRoundTrip(major, |s|, w, s + tail);
      StringReads(major, s, tail);
      ChunksRead(major, chunks[1..], rest);
      assert WriteChunks(major, chunks) + rest == WriteHead(major, |s|, w) + (s + tail);
      assert InfoOf(|s|, w) != OPEN;
    }
  }

  lemma StrReads(f: Form, budget: nat, rest: seq<byte>)
    requires f.Str? && Valid(f)
    ensures Decode(Write(f) + rest, budget) == Ok(Decoded(Meaning(f), rest))
  {
    hide Decode, ReadHead, WriteHead, DecodeString;
    HeadThen(f.major, |f.bytes|, f.width, f.bytes, rest, budget);
    StringReads(f.major, f.bytes, rest);
  }

  lemma ChunkedReads(f: Form, budget: nat, rest: seq<byte>)
    requires f.ChunkedStr? && Valid(f)
    ensures Decode(Write(f) + rest, budget) == Ok(Decoded(Meaning(f), rest))
  {
    hide Decode, DecodeChunks, WriteChunks, Joined;
    OpenThen(f.major, WriteChunks(f.major, f.chunks), rest, budget);
    ChunksRead(f.major, f.chunks, rest);
  }

  /** Decoding `items` in a container, which itself counts as one level. */
  function ExpectedList(major: Major, items: seq<Form>, budget: nat, rest: seq<byte>)
    : Result<Decoded<Value>, CborFault>
  {
    Expected(1 + NestingItems(Meanings(items)), budget, ListValue(major, Meanings(items)), rest)
  }

  lemma {:induction false} ListReads(f: Form, budget: nat, rest: seq<byte>)
    requires f.List? && Valid(f)
    ensures Decode(Write(f) + rest, budget) == ExpectedList(f.major, f.items, budget, rest)
    decreases f, 0
  {
    hide Decode, ReadHead, WriteHead, WriteItems, DecodeItems, ValidItems, Meanings, NestingItems, Pow256;
    HeadThen(f.major, Elements(f.major, |f.items|), f.width, WriteItems(f.items), rest, budget);
    if budget > 0 {
      ItemsRead(f.items, budget - 1, rest);
    }
  }

  lemma {:induction false} OpenListReads(f: Form, budget: nat, rest: seq<byte>)
    requires f.OpenList? && Valid(f)
    ensures Decode(Write(f) + rest, budget) == ExpectedList(f.major, f.items, budget, rest)
    decreases f, 0
  {
    hide Decode, WriteItems, DecodeUntilBreak, Meanings, NestingItems;
    OpenThen(f.major, WriteItems(f.items) + [BREAK], rest, budget);
    if budget > 0 {
      ItemsReadUntilBreak(f.items, budget - 1, rest);
    }
  }

  lemma {:induction false} TaggedReads(f: Form, budget: nat, rest: seq<byte>)
    requires f.Tagged? && Valid(f)
    ensures Decode(Write(f) + rest, budget)
            == Expected(1 + Nesting(Meaning(f.inner)), budget, Tag(f.tag, Meaning(f.inner)), rest)
    decreases f, 0
  {
    hide Decode, ReadHead, WriteHead, Meaning, Nesting;
    HeadThen(6, f.tag, f.width, Write(f.inner), rest, budget);
    if budget > 0 {
      WrittenReads(f.inner, budget - 1, rest);
    }
  }

  /**
   * Decoding an item in whatever form it is written gives its value and the bytes that follow it,
   * if and only if the value is nested no deeper than the decoder allows.
   */
  lemma {:induction false} WrittenReads(f: Form, budget: nat, rest: seq<byte>)
    requires Valid(f)
    ensures Decode(Write(f) + rest, budget) == Expected(Nesting(Meaning(f)), budget, Meaning(f), rest)
    decreases f, 1
  {
    hide Decode, Write, Meanings, NestingItems;
    match f
    case Atom(_, _, _) => AtomReads(f, budget, rest);
    case Str(_, _, _) => StrReads(f, budget, rest);
    case ChunkedStr(_, _) => ChunkedReads(f, budget, rest);
    case List(_, _, _) => ListReads(f, budget, rest);
    case OpenList(_, _) => OpenListReads(f, budget, rest);
    case Tagged(_, _, _) => TaggedReads(f, budget, rest);
  }

  lemma {:induction false} ItemsRead(items: seq<Form>, budget: nat, rest: seq<byte>)
    requires ValidItems(items)
    ensures DecodeItems(WriteItems(items) + rest, |items|, budget)
            == Expected(NestingItems(Meanings(items)), budget, Meanings(items), rest)
    decreases items, 0
  {
    hide Decode, Meaning, Nesting, Valid, Write;
    if items == [] {
      assert WriteItems(items) + rest == rest;
    } else {
      var tail := WriteItems(items[1..]) + rest;
      assert WriteItems(items) + rest == Write(items[0]) + tail;
      WrittenReads(items[0], budget, tail);
      ItemsRead(items[1..], budget, rest);
      ConsItems(Meaning(items[0]), Meanings(items[1..]));
    }
  }

  lemma {:induction false} ItemsReadUntilBreak(items: seq<Form>, budget: nat, rest: seq<byte>)
    requires ValidItems(items)
    ensures DecodeUntilBreak(WriteItems(items) + [BREAK] + rest, budget)
            == Expected(NestingItems(Meanings(items)), budget, Meanings(items), rest)
    decreases items, 0
  {
    hide Decode, Meaning, Nesting, Valid, Write;
    if items == [] {
      assert (WriteItems(items) + [BREAK] + rest)[1..] == rest;
    } else {
      var tail := WriteItems(items[1..]) + [BREAK] + rest;
      assert WriteItems(items) + [BREAK] + rest == Write(items[0]) + tail;
      WrittenReads(items[0], budget, tail);
      ItemsReadUntilBreak(items[1..], budget, rest);
      ConsItems(Meaning(items[0]), Meanings(items[1..]));
    }
  }

  // ----- What is read was written -----

  /** `f` is a way to write `v` that `buf` begins with. */
  predicate IsFormOf(f: Form, v: Value, buf: seq<byte>, rest: seq<byte>) {
    Valid(f) && Meaning(f) == v && buf == Write(f) + rest
  }

  lemma AtomForm(head: Head, w: nat, budget: nat) returns (f: Form)
    requires head.info != OPEN && (head.major < 2 || head.major == 7)
    requires Fits(head.argument, w) && InfoOf(head.argument, w) == head.info
    requires DecodeBody(head, budget).Ok?
    ensures var d := DecodeBody(head, budget).value;
            && IsFormOf(f, d.value, WriteHead(head.major, head.argument, w) + head.rest, d.rest)
            && Nesting(d.value) == 0
  {
    hide WriteHead, Pow256;
    f := Atom(head.major, w, head.argument);
  }

  lemma StringForm(head: Head, w: nat, budget: nat) returns (f: Form)
    requires head.info != OPEN && IsString(head.major)
    requires Fits(head.argument, w)
    requires DecodeBody(head, budget).Ok?
    ensures var d := DecodeBody(head, budget).value;
            && IsFormOf(f, d.value, WriteHead(head.major, head.argument, w) + head.rest, d.rest)
            && Nesting(d.value) == 0
  {
    hide WriteHead, Pow256;
    var d := Take(head.rest, head.argument).value;
    f := Str(head.major, w, d.value);
    assert WriteHead(head.major, head.argument, w) + head.rest
        == WriteHead(head.major, head.argument, w) + d.value + d.rest;
  }

  lemma {:induction false} ChunkForms(major: Major, buf: seq<byte>) returns (chunks: seq<Chunk>)
    requires DecodeChunks(major, buf).Ok?
    ensures ValidChunks(major, chunks)
    ensures Joined(chunks) == DecodeChunks(major, buf).value.value
    ensures buf == WriteChunks(major, chunks) + DecodeChunks(major, buf).value.rest
    decreases |buf|
  {
    hide ReadHead, WriteHead;
    if buf != [] && buf[0] == BREAK {
      chunks := [];
    } else {
      HeadExact(buf);
      var head := ReadHead(buf).value;
      var first := DecodeString(major, head.rest, head.argument).value;
      var others := ChunkForms(major, first.rest);
      var chunk := Chunk(ArgumentWidth(head.info), first.value);
      chunks := [chunk] + others;
      assert chunks[1..] == others;
      assert head.rest == first.value + first.rest;
    }
  }

  lemma {:induction false} ItemForms(buf: seq<byte>, count: nat, budget: nat) returns (fs: seq<Form>)
    requires DecodeItems(buf, count, budget).Ok?
    ensures |fs| == count && ValidItems(fs)
    ensures Meanings(fs) == DecodeItems(buf, count, budget).value.value
    ensures NestingItems(Meanings(fs)) <= budget
    ensures buf == WriteItems(fs) + DecodeItems(buf, count, budget).value.rest
    decreases budget, count + 3, 0
  {
    hide Decode, Write, Valid, Meaning, Nesting;
    if count == 0 {
      fs := [];
    } else {
      var first := Decode(buf, budget).value;
      var f := FormOf(buf, budget);
      var others := ItemForms(first.rest, count - 1, budget);
      fs := [f] + others;
      assert fs[1..] == others;
      ConsItems(Meaning(f), Meanings(others));
    }
  }

  lemma {:induction false} ItemFormsUntilBreak(buf: seq<byte>, budget: nat) returns (fs: seq<Form>)
    requires DecodeUntilBreak(buf, budget).Ok?
    ensures ValidItems(fs)
    ensures Meanings(fs) == DecodeUntilBreak(buf, budget).value.value
    ensures NestingItems(Meanings(fs)) <= budget
    ensures buf == WriteItems(fs) + [BREAK] + DecodeUntilBreak(buf, budget).value.rest
    decreases budget, |buf| + 3, 0
  {
    hide Decode, Write, Valid, Meaning, Nesting;
    if buf != [] && buf[0] == BREAK {
      fs := [];
    } else {
      var first := Decode(buf, budget).value;
      var f := FormOf(buf, budget);
      var others := ItemFormsUntilBreak(first.rest, budget);
      fs := [f] + others;
      assert fs[1..] == others;
      ConsItems(Meaning(f), Meanings(others));
    }
  }

  lemma {:induction false} ListForm(head: Head, w: nat, budget: nat) returns (f: Form)
    requires head.info != OPEN && IsContainer(head.major)
    requires Fits(head.argument, w)
    requires DecodeBody(head, budget).Ok?
    ensures var d := DecodeBody(head, budget).value;
            && IsFormOf(f, d.value, WriteHead(head.major, head.argument, w) + head.rest, d.rest)
            && Nesting(d.value) <= budget
    decreases budget, 1, 0
  {
    hide Decode, WriteHead, WriteItems, DecodeItems, NestingItems, ValidItems, Meanings;
    FitsBound(head.argument, w);
    var fs := ItemForms(head.rest, ItemCount(head.major, head.argument), budget - 1);
    f := List(head.major, w, fs);
    assert Elements(head.major, |fs|) == head.argument;
    var d := DecodeBody(head, budget).value;
    var written := WriteHead(head.major, head.argument, w);
    assert written + (WriteItems(fs) + d.rest) == written + WriteItems(fs) + d.rest;
  }

  lemma {:induction false} OpenForm(major: Major, buf: seq<byte>, budget: nat) returns (f: Form)
    requires DecodeOpen(major, buf, budget).Ok?
    ensures var d := DecodeOpen(major, buf, budget).value;
            && IsFormOf(f, d.value, [major * 32 + OPEN] + buf, d.rest)
            && Nesting(d.value) <= budget
    decreases budget, 1, 0
  {
    hide Decode, WriteItems, DecodeUntilBreak, DecodeChunks, NestingItems, ValidItems, ValidChunks, WriteChunks,
         Joined, Meanings;
    var d := DecodeOpen(major, buf, budget).value;
    var initial := [major * 32 + OPEN];
    if IsString(major) {
      var chunks := ChunkForms(major, buf);
      f := ChunkedStr(major, chunks);
      assert initial + (WriteChunks(major, chunks) + d.rest) == initial + WriteChunks(major, chunks) + d.rest;
    } else {
      var fs := ItemFormsUntilBreak(buf, budget - 1);
      f := OpenList(major, fs);
      assert initial + (WriteItems(fs) + [BREAK] + d.rest) == initial + (WriteItems(fs) + [BREAK]) + d.rest;
    }
  }

  lemma {:induction false} TagForm(head: Head, w: nat, budget: nat) returns (f: Form)
    requires head.info != OPEN && head.major == 6
    requires Fits(head.argument, w)
    requires DecodeBody(head, budget).Ok?
    ensures var d := DecodeBody(head, budget).value;
            && IsFormOf(f, d.value, WriteHead(head.major, head.argument, w) + head.rest, d.rest)
            && Nesting(d.value) <= budget
    decreases budget, 1, 0
  {
    hide Decode, WriteHead;
    var inner := FormOf(head.rest, budget - 1);
    f := Tagged(w, head.argument, inner);
    var d := DecodeBody(head, budget).value;
    var written := WriteHead(head.major, head.argument, w);
    assert written + (Write(inner) + d.rest) == written + Write(inner) + d.rest;
  }

  lemma FitsBound(n: nat, w: nat)
    requires Fits(n, w)
    ensures n < TWO_TO_64
  {
    Pow256Widths();
  }

  /** Everything that is decoded was written in some form, and is nested no deeper than allowed. */
  lemma {:induction false} FormOf(buf: seq<byte>, budget: nat) returns (f: Form)
    requires Decode(buf, budget).Ok?
    ensures var d := Decode(buf, budget).value;
            IsFormOf(f, d.value, buf, d.rest) && Nesting(d.value) <= budget
    decreases budget, 2, 0
  {
    hide ReadHead, WriteHead, Meaning, Write, Valid, Nesting, DecodeOpen;
    HeadExact(buf);
    var head := ReadHead(buf).value;
    var w := ArgumentWidth(head.info);
    if head.info == OPEN {
      f := OpenForm(head.major, head.rest, budget);
    } else if head.major < 2 || head.major == 7 {
      f := AtomForm(head, w, budget);
    } else if IsString(head.major) {
      f := StringForm(head, w, budget);
    } else if IsContainer(head.major) {
      f := ListForm(head, w, budget);
    } else {
      f := TagForm(head, w, budget);
    }
  }

  /**
   * The decoder, exactly: it finds a value and leaves `rest` if and only if the value is nested within the limit
   * and the input is some way to write it followed by `rest`.
   */
  lemma DecodeExact(buf: seq<byte>, budget: nat, v: Value, rest: seq<byte>)
    ensures Decode(buf, budget) == Ok(Decoded(v, rest))
            <==> Nesting(v) <= budget && exists s :: Represents(s, v) && buf == s + rest
  {
    hide Decode, Nesting;
    if Decode(buf, budget) == Ok(Decoded(v, rest)) {
      var f := FormOf(buf, budget);
      assert Represents(Write(f), v);
    }
    if Nesting(v) <= budget && exists s :: Represents(s, v) && buf == s + rest {
      var s :| Represents(s, v) && buf == s + rest;
      var f :| Valid(f) && Meaning(f) == v && Write(f) == s;
      WrittenReads(f, budget, rest);
    }
  }

  // ----- One string, one form -----

  /** How a form begins: with a head, or with an initial byte that leaves the length open. */
  datatype Lead = Definite(major: Major, width: nat, n: nat) | Open(major: Major)

  predicate ValidLead(lead: Lead) {
    lead.Definite? ==> Fits(lead.n, lead.width)
  }

  function WriteLead(lead: Lead): seq<byte>
    requires ValidLead(lead)
  {
    match lead
    case Definite(major, w, n) => WriteHead(major, n, w)
    case Open(major) => [major * 32 + OPEN]
  }

  function LeadOf(f: Form): Lead {
    match f
    case Atom(major, w, n) => Definite(major, w, n)
    case Str(major, w, s) => Definite(major, w, |s|)
    case ChunkedStr(major, _) => Open(major)
    case List(major, w, items) => Definite(major, w, Elements(major, |items|))
    case OpenList(major, _) => Open(major)
    case Tagged(w, tag, _) => Definite(6, w, tag)
  }

  /** What follows the lead. */
  function Body(f: Form): seq<byte>
    requires Valid(f)
  {
    match f
    case Atom(_, _, _) => []
    case Str(_, _, s) => s
    case ChunkedStr(major, chunks) => WriteChunks(major, chunks)
    case List(_, _, items) => WriteItems(items)
    case OpenList(_, items) => WriteItems(items) + [BREAK]
    case Tagged(_, _, inner) => Write(inner)
  }

  lemma LeadUnambiguous(x: Lead, y: Lead, a: seq<byte>, a': seq<byte>)
    requires ValidLead(x) && ValidLead(y)
    requires WriteLead(x) + a == WriteLead(y) + a'
    ensures x == y && a == a'
  {
    hide WriteHead, ReadHead, Pow256;
    LeadReads(x, a);
    LeadReads(y, a');
  }

  lemma LeadReads(x: Lead, a: seq<byte>)
    requires ValidLead(x)
    ensures var r := ReadHead(WriteLead(x) + a);
            && r.Ok? && r.value.major == x.major && r.value.rest == a
            && match x
               case Definite(_, w, n) => r.value.info == InfoOf(n, w) && r.value.argument == n
               case Open(_) => r.value.info == OPEN
  {
    if x.Definite? {
      HeadRoundTrip(x.major, x.n, x.width, a);
    } else {
      assert (WriteLead(x) + a)[1..] == a;
    }
  }

  lemma WriteIsLeadAndBody(f: Form, a: seq<byte>)
    requires Valid(f)
    ensures ValidLead(LeadOf(f))
    ensures Write(f) + a == WriteLead(LeadOf(f)) + (Body(f) + a)
  {
    hide WriteHead, WriteItems, WriteChunks, ValidItems, ValidChunks, Joined, Pow256;
    assert Write(f) == WriteLead(LeadOf(f)) + Body(f);
  }

  lemma SplitForm(f: Form, g: Form, a: seq<byte>, a': seq<byte>)
    requires Valid(f) && Valid(g)
    requires Write(f) + a == Write(g) + a'
    ensures LeadOf(f) == LeadOf(g) && Body(f) + a == Body(g) + a'
  {
    hide Write, Valid, WriteLead, Body;
    WriteIsLeadAndBody(f, a);
    WriteIsLeadAndBody(g, a');
    LeadUnambiguous(LeadOf(f), LeadOf(g), Body(f) + a, Body(g) + a');
  }

  lemma SameSplit(s: seq<byte>, a: seq<byte>, s': seq<byte>, a': seq<byte>)
    requires s + a == s' + a' && |s| == |s'|
    ensures s == s' && a == a'
  {
    assert s == (s + a)[..|s|] && a == (s + a)[|s|..];
  }

  lemma {:induction false} ChunksUnambiguous(major: Major, cs: seq<Chunk>, ds: seq<Chunk>, a: seq<byte>, a': seq<byte>)
    requires ValidChunks(major, cs) && ValidChunks(major, ds)
    requires WriteChunks(major, cs) + a == WriteChunks(major, ds) + a'
    ensures cs == ds && a == a'
    decreases |cs|
  {
    hide WriteHead, Pow256;
    if cs == [] || ds == [] {
      assert (WriteChunks(major, cs) + a)[0] == WriteChunks(major, cs)[0];
      assert (WriteChunks(major, ds) + a')[0] == WriteChunks(major, ds)[0];
      assert cs == [] && ds == [];
      SameSplit([BREAK], a, [BREAK], a');
    } else {
      var c, d := cs[0], ds[0];
      var tail, tail' := WriteChunks(major, cs[1..]) + a, WriteChunks(major, ds[1..]) + a';
      assert WriteChunks(major, cs) + a == WriteHead(major, |c.bytes|, c.width) + (c.bytes + tail);
      assert WriteChunks(major, ds) + a' == WriteHead(major, |d.bytes|, d.width) + (d.bytes + tail');
      LeadUnambiguous(Definite(major, c.width, |c.bytes|), Definite(major, d.width, |d.bytes|),
                      c.bytes + tail, d.bytes + tail');
      SameSplit(c.bytes, tail, d.bytes, tail');
      ChunksUnambiguous(major, cs[1..], ds[1..], a, a');
      assert cs == [c] + cs[1..] && ds == [d] + ds[1..];
    }
  }

  /** No way to write one item is the beginning of another way to write any item. */
  lemma {:induction false} Unambiguous(f: Form, g: Form, a: seq<byte>, a': seq<byte>)
    requires Valid(f) && Valid(g)
    requires Write(f) + a == Write(g) + a'
    ensures f == g && a == a'
    decreases f, 1
  {
    hide Write, WriteItems, ValidItems, WriteChunks, ValidChunks, Fits;
    SplitForm(f, g, a, a');
    match f
    case Atom(_, _, _) => SameSplit([], a, [], a');
    case Str(_, _, s) => SameSplit(s, a, g.bytes, a');
    case ChunkedStr(major, chunks) => ChunksUnambiguous(major, chunks, g.chunks, a, a');
    case List(_, _, items) => ItemsUnambiguous(items, g.items, a, a');
    case OpenList(_, items) =>
      assert WriteItems(items) + [BREAK] + a == WriteItems(items) + ([BREAK] + a);
      assert WriteItems(g.items) + [BREAK] + a' == WriteItems(g.items) + ([BREAK] + a');
      ItemsUnambiguousUntilBreak(items, g.items, a, a');
    case Tagged(_, _, inner) => Unambiguous(inner, g.inner, a, a');
  }

  lemma {:induction false} ItemsUnambiguous(fs: seq<Form>, gs: seq<Form>, a: seq<byte>, a': seq<byte>)
    requires ValidItems(fs) && ValidItems(gs) && |fs| == |gs|
    requires WriteItems(fs) + a == WriteItems(gs) + a'
    ensures fs == gs && a == a'
    decreases fs, 0
  {
    hide Write, Valid;
    if fs == [] {
      SameSplit([], a, [], a');
    } else {
      FirstUnambiguous(fs, gs, a, a');
      ItemsUnambiguous(fs[1..], gs[1..], a, a');
      assert fs == [fs[0]] + fs[1..] && gs == [gs[0]] + gs[1..];
    }
  }

  /** A break comes first only when there are no items. */
  lemma EndsAtBreak(fs: seq<Form>, a: seq<byte>)
    requires ValidItems(fs)
    ensures (WriteItems(fs) + ([BREAK] + a))[0] == BREAK <==> fs == []
  {
    hide Write, Valid;
  }

  lemma {:induction false} ItemsUnambiguousUntilBreak(fs: seq<Form>, gs: seq<Form>, a: seq<byte>, a': seq<byte>)
    requires ValidItems(fs) && ValidItems(gs)
    requires WriteItems(fs) + ([BREAK] + a) == WriteItems(gs) + ([BREAK] + a')
    ensures fs == gs && a == a'
    decreases fs, 0
  {
    hide Write, Valid;
    if fs == [] || gs == [] {
      EndsAtBreak(fs, a);
      EndsAtBreak(gs, a');
      assert fs == [] && gs == [];
      assert [] + ([BREAK] + a) == [BREAK] + a && [] + ([BREAK] + a') == [BREAK] + a';
      SameSplit([BREAK], a, [BREAK], a');
    } else {
      FirstUnambiguous(fs, gs, [BREAK] + a, [BREAK] + a');
      ItemsUnambiguousUntilBreak(fs[1..], gs[1..], a, a');
      assert fs == [fs[0]] + fs[1..] && gs == [gs[0]] + gs[1..];
    }
  }

  lemma {:induction false} FirstUnambiguous(fs: seq<Form>, gs: seq<Form>, a: seq<byte>, a': seq<byte>)
    requires fs != [] && gs != [] && ValidItems(fs) && ValidItems(gs)
    requires WriteItems(fs) + a == WriteItems(gs) + a'
    ensures fs[0] == gs[0] && WriteItems(fs[1..]) + a == WriteItems(gs[1..]) + a'
    decreases fs[0], 2
  {
    hide Write, Valid;
    assert WriteItems(fs) + a == Write(fs[0]) + (WriteItems(fs[1..]) + a);
    assert WriteItems(gs) + a' == Write(gs[0]) + (WriteItems(gs[1..]) + a');
    Unambiguous(fs[0], gs[0], WriteItems(fs[1..]) + a, WriteItems(gs[1..]) + a');
  }

  // ----- The shortest form -----

  /** Every head is as short as its argument allows and no length is left open; the width of a float is its own. */
  predicate IsShortest(f: Form)
    decreases f
  {
    match f
    case Atom(major, w, n) => major == 7 || (n < TWO_TO_64 && w == ShortestWidth(n))
    case Str(_, w, s) => |s| < TWO_TO_64 && w == ShortestWidth(|s|)
    case List(major, w, items) =>
      Elements(major, |items|) < TWO_TO_64 && w == ShortestWidth(Elements(major, |items|)) && AreShortest(items)
    case Tagged(w, tag, inner) => tag < TWO_TO_64 && w == ShortestWidth(tag) && IsShortest(inner)
    case _ => false
  }

  predicate AreShortest(items: seq<Form>)
    decreases items
  {
    items == [] || (IsShortest(items[0]) && AreShortest(items[1..]))
  }

  /** The form in which the encoder writes a value. */
  function ShortestForm(v: Value): Form
    requires Encodable(v)
    decreases v
  {
    match v
    case Int(n) => if n >= 0 then Atom(0, ShortestWidth(n), n) else Atom(1, ShortestWidth(-1 - n), -1 - n)
    case Bytes(b) => Str(2, ShortestWidth(|b|), b)
    case Text(s) => Str(3, ShortestWidth(|s|), s)
    case Array(items) => List(4, ShortestWidth(|items|), ShortestForms(items))
    case Map(flat) => List(5, ShortestWidth(|flat| / 2), ShortestForms(flat))
    case Tag(tag, inner) => Tagged(ShortestWidth(tag), tag, ShortestForm(inner))
    case Float(width, bits) => Atom(7, width, bits)
    case Simple(code) => Atom(7, 0, code)
  }

  function ShortestForms(items: seq<Value>): (fs: seq<Form>)
    requires EncodableItems(items)
    ensures |fs| == |items|
    decreases items
  {
    if items == [] then [] else [ShortestForm(items[0])] + ShortestForms(items[1..])
  }

  lemma {:induction false} ShortestFormExact(v: Value)
    requires Encodable(v)
    ensures var f := ShortestForm(v); Valid(f) && IsShortest(f) && Meaning(f) == v && Write(f) == Encode(v)
    decreases v
  {
    hide WriteHead, ShortestWidth, Pow256;
    match v
    case Array(items) => ShortestFormsExact(items);
    case Map(flat) => ShortestFormsExact(flat);
    case Tag(_, inner) => ShortestFormExact(inner);
    case _ =>
  }

  lemma {:induction false} ShortestFormsExact(items: seq<Value>)
    requires EncodableItems(items)
    ensures var fs := ShortestForms(items);
            ValidItems(fs) && AreShortest(fs) && Meanings(fs) == items && WriteItems(fs) == EncodeItems(items)
    decreases items
  {
    hide Valid, IsShortest, Meaning, Write, Encode, Encodable, ShortestForm;
    if items != [] {
      ShortestFormExact(items[0]);
      ShortestFormsExact(items[1..]);
      assert ShortestForms(items)[1..] == ShortestForms(items[1..]);
    }
  }

  lemma {:induction false} JoinedIsText(chunks: seq<Chunk>)
    requires ValidChunks(3, chunks)
    ensures IsUtf8(Joined(chunks))
  {
    if chunks != [] {
      JoinedIsText(chunks[1..]);
      JoinedIsUtf8(chunks[0].bytes, Joined(chunks[1..]));
    }
  }

  /** What a form means can be encoded; if the form is a shortest one, it is the one that the encoder chooses. */
  lemma {:induction false} MeaningEncodable(f: Form)
    requires Valid(f)
    ensures Encodable(Meaning(f))
    ensures IsShortest(f) ==> f == ShortestForm(Meaning(f))
    decreases f
  {
    hide IsUtf8, Pow256, ShortestWidth;
    match f
    case Atom(_, w, n) => FitsBound(n, w);
    case Str(_, w, s) => FitsBound(|s|, w);
    case ChunkedStr(major, chunks) =>
      if major == 3 {
        JoinedIsText(chunks);
      }
    case List(_, _, items) => MeaningsEncodable(items);
    case OpenList(_, items) => MeaningsEncodable(items);
    case Tagged(w, tag, inner) =>
      FitsBound(tag, w);
      MeaningEncodable(inner);
  }

  lemma {:induction false} MeaningsEncodable(items: seq<Form>)
    requires ValidItems(items)
    ensures EncodableItems(Meanings(items))
    ensures AreShortest(items) ==> items == ShortestForms(Meanings(items))
    decreases items
  {
    hide Valid, IsShortest, Meaning, Encodable, ShortestForm;
    if items != [] {
      MeaningEncodable(items[0]);
      MeaningsEncodable(items[1..]);
      assert Meanings(items)[1..] == Meanings(items[1..]);
      assert items == [items[0]] + items[1..];
    }
  }

  /** Of all the ways to write a value, the encoder's is the one with shortest heads and definite lengths. */
  lemma ShortestExact(f: Form)
    requires Valid(f)
    ensures Encodable(Meaning(f))
    ensures Write(f) == Encode(Meaning(f)) <==> IsShortest(f)
  {
    hide Valid, IsShortest, Meaning, Write, Encode, Encodable, ShortestForm;
    MeaningEncodable(f);
    var g := ShortestForm(Meaning(f));
    ShortestFormExact(Meaning(f));
    if Write(f) == Encode(Meaning(f)) {
      Unambiguous(f, g, [], []);
    }
  }

  // ----- Decoding and encoding -----

  /** Whatever bytes were read, the value found in them can be encoded and is nested within the limit. */
  lemma DecodeSound(buf: seq<byte>, budget: nat)
    ensures var r := Decode(buf, budget);
            r.Ok? ==> Encodable(r.value.value) && Nesting(r.value.value) <= budget
  {
    hide Decode, Valid, Meaning, Write, Encodable, Nesting;
    if Decode(buf, budget).Ok? {
      var f := FormOf(buf, budget);
      MeaningEncodable(f);
    }
  }

  /**
   * Decoding what was encoded gives back the value and the bytes that follow it,
   * if and only if the value is nested no deeper than the decoder allows.
   */
  lemma RoundTrip(v: Value, budget: nat, rest: seq<byte>)
    requires Encodable(v)
    ensures Decode(Encode(v) + rest, budget) == Expected(Nesting(v), budget, v, rest)
  {
    ShortestFormExact(v);
    WrittenReads(ShortestForm(v), budget, rest);
  }

  /** The converse: encoding what was decoded gives back the bytes read if and only if they are a shortest form. */
  lemma ReencodeExact(buf: seq<byte>, budget: nat)
    requires Decode(buf, budget).Ok?
    ensures var d := Decode(buf, budget).value;
            && Encodable(d.value)
            && (Encode(d.value) + d.rest == buf <==> exists f :: IsFormOf(f, d.value, buf, d.rest) && IsShortest(f))
  {
    hide Decode, Valid, IsShortest, Meaning, Write, Encode, Encodable, ShortestForm;
    DecodeSound(buf, budget);
    var d := Decode(buf, budget).value;
    ShortestFormExact(d.value);
    if exists f :: IsFormOf(f, d.value, buf, d.rest) && IsShortest(f) {
      var f :| IsFormOf(f, d.value, buf, d.rest) && IsShortest(f);
      ShortestExact(f);
    }
  }

  /** The two sides do come apart: a small number may also be written with a longer head. */
  lemma LongFormsAccepted(n: u8, budget: nat)
    requires n < 24
    ensures Decode([24, n], budget) == Ok(Decoded(Int(n), []))
    ensures Encode(Int(n)) == [n]
  {
    hide Decode, ReadHead;
    var f := Atom(0, 1, n);
    assert Pow256(1) == 0x100;
    WrittenReads(f, budget, []);
    assert BigEndian(n, 1) == [n] by {
      assert BigEndian(n / 256, 0) == [];
    }
    assert Write(f) + [] == [24, n];
  }

  /** No encoding is the beginning of another, so encoded values can be told apart even when followed by more bytes. */
  lemma EncodingPrefixFree(v: Value, w: Value, after: seq<byte>, after': seq<byte>)
    requires Encodable(v) && Encodable(w)
    requires Encode(v) + after == Encode(w) + after'
    ensures v == w && after == after'
  {
    ShortestFormExact(v);
    ShortestFormExact(w);
    Unambiguous(ShortestForm(v), ShortestForm(w), after, after');
  }
}
