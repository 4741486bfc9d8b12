/** The Contract ABI encoding ("Formal Specification of the Encoding") for the types this system's schema is made of. */
module Abi {
  import opened Basics
  import opened Utf8

  datatype Type =
    | TUint(limit: nat)        // an unsigned integer or enumeration with `limit` values
    | TFixed(size: nat)        // bytes1 to bytes32
    | TBytes
    | TString
    | TTuple(fields: seq<Type>)
    | TArray(element: Type)

  datatype Value =
    | VUint(n: nat)
    | VFixed(word: seq<byte>)
    | VBytes(bytes: seq<byte>)
    | VTuple(items: seq<Value>)
    | VArray(items: seq<Value>)

  // ----- Typing -----

  function Repeat(t: Type, n: nat): (ts: seq<Type>)
    ensures |ts| == n
    ensures forall i :: 0 <= i < n ==> ts[i] == t
  {
    seq(n, _ => t)
  }

  /** `v` is a value of type `t`; array elements must take up room, as every Solidity type does. */
  predicate HasType(v: Value, t: Type)
    decreases v
  {
    match t
    case TUint(limit) => v.VUint? && v.n < limit <= TWO_TO_64
    case TFixed(size) => v.VFixed? && 1 <= |v.word| == size <= 32
    case TBytes => v.VBytes?
    case TString => v.VBytes? && IsUtf8(v.bytes)
    case TTuple(fields) => v.VTuple? && HaveTypes(v.items, fields)
    case TArray(element) => v.VArray? && HeadSizeOf(element) > 0 && HaveTypes(v.items, Repeat(element, |v.items|))
  }

  predicate HaveTypes(vs: seq<Value>, ts: seq<Type>)
    decreases vs
  {
    && |vs| == |ts|
    && (vs != [] ==> HasType(vs[0], ts[0]) && HaveTypes(vs[1..], ts[1..]))
  }

  predicate DynamicType(t: Type) {
    match t
    case TUint(_) => false
    case TFixed(_) => false
    case TTuple(fields) => AnyDynamicType(fields)
    case _ => true
  }

  predicate AnyDynamicType(ts: seq<Type>) {
    ts != [] && (DynamicType(ts[0]) || AnyDynamicType(ts[1..]))
  }

  /** Bytes that a value of type `t` takes in the head of a tuple: an offset, or the value itself. */
  function HeadSizeOf(t: Type): nat
    decreases t, 1
  {
    if DynamicType(t) then 32
    else
      match t
      case TTuple(fields) => HeadSizesOf(fields)
      case _ => 32
  }

  function HeadSizesOf(ts: seq<Type>): nat
    decreases ts, 0
  {
    if ts == [] then 0 else HeadSizeOf(ts[0]) + HeadSizesOf(ts[1..])
  }

  // ----- Encoding -----

  predicate Dynamic(v: Value)
    decreases v
  {
    match v
    case VUint(_) => false
    case VFixed(_) => false
    case VTuple(items) => AnyDynamic(items)
    case _ => true
  }

  predicate AnyDynamic(vs: seq<Value>)
    decreases vs
  {
    vs != [] && (Dynamic(vs[0]) || AnyDynamic(vs[1..]))
  }

  /** `n` rounded up to whole words. */
  function PadTo32(n: nat): (r: nat)
    ensures n <= r < n + 32 && r % 32 == 0
  {
    (n + 31) / 32 * 32
  }

  function RightPad(s: seq<byte>): (r: seq<byte>)
    ensures |r| == PadTo32(|s|)
    ensures r[..|s|] == s
    ensures forall i :: |s| <= i < |r| ==> r[i] == 0
  {
    s + Zeros(PadTo32(|s|) - |s|)
  }

  function Word(n: nat): B256 {
    BigEndian(n, 32)
  }

  /** The 32 bytes of a 64-bit number: 24 zeros, then its digits in base 256, most significant first. */
  lemma WordBytes(n: u64)
    ensures forall i :: 0 <= i < 24 ==> Word(n)[i] == 0
    ensures Word(n)[24] == n / 0x100_0000_0000_0000 && Word(n)[25] == n / 0x1_0000_0000_0000 % 256
    ensures Word(n)[26] == n / 0x100_0000_0000 % 256 && Word(n)[27] == n / 0x1_0000_0000 % 256
    ensures Word(n)[28] == n / 0x100_0000 % 256 && Word(n)[29] == n / 0x1_0000 % 256
    ensures Word(n)[30] == n / 0x100 % 256 && Word(n)[31] == n % 256
  {
    hide BigEndian, Pow256;
    forall i | 0 <= i < 24
      ensures Word(n)[i] == 0
    {
      BigEndianDigit(n, 32, i);
      Pow256Widths();
      Pow256Monotone(8, 31 - i);
      DivideExact(n, 0, Pow256(31 - i), n);
    }
    SmallPowers();
    BigEndianDigit(n, 32, 24);
    BigEndianDigit(n, 32, 25);
    BigEndianDigit(n, 32, 26);
    BigEndianDigit(n, 32, 27);
    BigEndianDigit(n, 32, 28);
    BigEndianDigit(n, 32, 29);
    BigEndianDigit(n, 32, 30);
    BigEndianDigit(n, 32, 31);
  }

  function Encode(v: Value): seq<byte>
    decreases v, 0
  {
    match v
    case VUint(n) => Word(n)
    case VFixed(word) => RightPad(word)
    case VBytes(bytes) => Word(|bytes|) + RightPad(bytes)
    case VTuple(items) => Heads(items, HeadsLength(items)) + Tails(items)
    case VArray(items) => Word(|items|) + (Heads(items, HeadsLength(items)) + Tails(items))
  }

  /** What a component contributes to the head of its tuple: an offset, or the value itself. */
  function HeadOf(v: Value, offset: nat): seq<byte>
    decreases v, 1
  {
    if Dynamic(v) then Word(offset) else Encode(v)
  }

  /** What it contributes after the heads. */
  function TailOf(v: Value): seq<byte>
    decreases v, 1
  {
    if Dynamic(v) then Encode(v) else []
  }

  function HeadSize(v: Value): nat
    decreases v, 1
  {
    if Dynamic(v) then 32 else |Encode(v)|
  }

  function HeadsLength(vs: seq<Value>): nat
    decreases vs, 0
  {
    if vs == [] then 0 else HeadSize(vs[0]) + HeadsLength(vs[1..])
  }

  /** The heads of consecutive values whose tails start at `offset`. */
  function Heads(vs: seq<Value>, offset: nat): seq<byte>
    decreases vs, 0
  {
    if vs == [] then [] else HeadOf(vs[0], offset) + Heads(vs[1..], offset + |TailOf(vs[0])|)
  }

  function Tails(vs: seq<Value>): seq<byte>
    decreases vs, 0
  {
    if vs == [] then [] else TailOf(vs[0]) + Tails(vs[1..])
  }

  // ----- Decoding -----

  function TypeDepth(t: Type): nat {
    match t
    case TTuple(fields) => 1 + TypeDepths(fields)
    case TArray(element) => 1 + TypeDepth(element)
    case _ => 0
  }

  function TypeDepths(ts: seq<Type>): nat {
    if ts == [] then 0 else Max(TypeDepth(ts[0]), TypeDepths(ts[1..]))
  }

  lemma {:induction false} RepeatDepth(t: Type, n: nat)
    ensures TypeDepths(Repeat(t, n)) <= TypeDepth(t)
  {
    if n > 0 {
      assert Repeat(t, n)[1..] == Repeat(t, n - 1);
      RepeatDepth(t, n - 1);
    }
  }

  /** The word at position `at`, as a number. */
  function ReadWord(buf: seq<byte>, at: nat): Option<nat> {
    if |buf| < at + 32 then None else Some(FromBigEndian(buf[at..at + 32]))
  }

  /** Decodes a value of type `t` from the front of `buf`. */
  function Decode(t: Type, buf: seq<byte>): Option<Value>
    decreases TypeDepth(t), 0
  {
    match t
    case TUint(limit) =>
      var w := ReadWord(buf, 0);
      if w.Some? && w.value < limit <= TWO_TO_64 then Some(VUint(w.value)) else None
    case TFixed(size) =>
      if |buf| < 32 || size == 0 || size > 32 || buf[size..32] != Zeros(32 - size) then None
      else Some(VFixed(buf[..size]))
    case TBytes => DecodeBytes(buf)
    case TString =>
      var v := DecodeBytes(buf);
      if v.Some? && v.value.VBytes? && IsUtf8(v.value.bytes) then v else None
    case TTuple(fields) =>
      var vs := DecodeAll(fields, buf, 0);
      if vs.Some? then Some(VTuple(vs.value)) else None
    case TArray(element) =>
      var count := ReadWord(buf, 0);
      if count.None? || HeadSizeOf(element) == 0 then None
      else
        RepeatDepth(element, count.value);
        var vs := DecodeAll(Repeat(element, count.value), buf[32..], 0);
        if vs.Some? then Some(VArray(vs.value)) else None
  }

  function DecodeBytes(buf: seq<byte>): Option<Value> {
    var length := ReadWord(buf, 0);
    if length.None? || |buf| < 32 + length.value then None else Some(VBytes(buf[32..32 + length.value]))
  }

  /** Decodes consecutive values whose heads start at `at`; offsets count from the start of `buf`. */
  function DecodeAll(ts: seq<Type>, buf: seq<byte>, at: nat): Option<seq<Value>>
    decreases TypeDepths(ts), |ts| + 1
  {
    if ts == [] then Some([])
    else
      var from := if DynamicType(ts[0]) then ReadWord(buf, at) else Some(at);
      if from.None? || from.value > |buf| then None
      else
        var first := Decode(ts[0], buf[from.value..]);
        var others := DecodeAll(ts[1..], buf, at + HeadSizeOf(ts[0]));
        if first.Some? && others.Some? then Some([first.value] + others.value) else None
  }

  // ----- Typing of sequences and of decoded values -----

  lemma {:induction false} HaveTypesAt(vs: seq<Value>, ts: seq<Type>)
    ensures HaveTypes(vs, ts) <==> |vs| == |ts| && forall i :: 0 <= i < |vs| ==> HasType(vs[i], ts[i])
    decreases |vs|
  {
    if vs != [] && |vs| == |ts| {
      HaveTypesAt(vs[1..], ts[1..]);
      if HaveTypes(vs, ts) {
        forall i | 0 <= i < |vs|
          ensures HasType(vs[i], ts[i])
        {
          assert i > 0 ==> vs[i] == vs[1..][i - 1] && ts[i] == ts[1..][i - 1];
        }
      }
    }
  }

  lemma {:induction false} AnyDynamicAt(vs: seq<Value>, i: nat)
    requires i < |vs| && Dynamic(vs[i])
    ensures AnyDynamic(vs)
    decreases i
  {
    if i > 0 {
      AnyDynamicAt(vs[1..], i - 1);
    }
  }

  lemma {:induction false} AnyDynamicTypeAt(ts: seq<Type>, i: nat)
    requires i < |ts| && DynamicType(ts[i])
    ensures AnyDynamicType(ts)
    decreases i
  {
    if i > 0 {
      AnyDynamicTypeAt(ts[1..], i - 1);
    }
  }

  /** Whatever the bytes, a decoded value respects its type: ranges, enumerations, text and counts. */
  lemma {:induction false} DecodedIsTyped(t: Type, buf: seq<byte>)
    ensures Decode(t, buf).Some? ==> HasType(Decode(t, buf).value, t)
    decreases TypeDepth(t), 0
  {
    match t
    case TTuple(fields) => DecodedAreTyped(fields, buf, 0);
    case TArray(element) =>
      var count := ReadWord(buf, 0);
      if count.Some? {
        RepeatDepth(element, count.value);
        DecodedAreTyped(Repeat(element, count.value), buf[32..], 0);
      }
    case _ =>
  }

  lemma {:induction false} DecodedAreTyped(ts: seq<Type>, buf: seq<byte>, at: nat)
    ensures DecodeAll(ts, buf, at).Some? ==> HaveTypes(DecodeAll(ts, buf, at).value, ts)
    decreases TypeDepths(ts), |ts| + 1
  {
    if DecodeAll(ts, buf, at).Some? && ts != [] {
      var from := if DynamicType(ts[0]) then ReadWord(buf, at) else Some(at);
      DecodedIsTyped(ts[0], buf[from.value..]);
      DecodedAreTyped(ts[1..], buf, at + HeadSizeOf(ts[0]));
      var vs := DecodeAll(ts, buf, at).value;
      assert vs[1..] == DecodeAll(ts[1..], buf, at + HeadSizeOf(ts[0])).value;
    }
  }

  // ----- Sizes -----

  lemma {:induction false} DynamicMatchesType(v: Value, t: Type)
    requires HasType(v, t)
    ensures Dynamic(v) <==> DynamicType(t)
    decreases v
  {
    if v.VTuple? {
      AnyDynamicMatchesTypes(v.items, t.fields);
    }
  }

  lemma {:induction false} AnyDynamicMatchesTypes(vs: seq<Value>, ts: seq<Type>)
    requires HaveTypes(vs, ts)
    ensures AnyDynamic(vs) <==> AnyDynamicType(ts)
    decreases vs
  {
    if vs != [] {
      DynamicMatchesType(vs[0], ts[0]);
      AnyDynamicMatchesTypes(vs[1..], ts[1..]);
    }
  }

  lemma HeadOfLength(v: Value, offset: nat)
    ensures |HeadOf(v, offset)| == HeadSize(v)
  {
  }

  lemma {:induction false} HeadsHaveLength(vs: seq<Value>, offset: nat)
    ensures |Heads(vs, offset)| == HeadsLength(vs)
    decreases vs
  {
    if vs != [] {
      HeadsHaveLength(vs[1..], offset + |TailOf(vs[0])|);
    }
  }

  lemma {:induction false} StaticHasNoTails(vs: seq<Value>)
    requires !AnyDynamic(vs)
    ensures Tails(vs) == []
    decreases vs
  {
    if vs != [] {
      StaticHasNoTails(vs[1..]);
    }
  }

  lemma {:induction false} HeadSizeMatchesType(v: Value, t: Type)
    requires HasType(v, t)
    ensures HeadSize(v) == HeadSizeOf(t)
    decreases v
  {
    DynamicMatchesType(v, t);
    if v.VTuple? && !Dynamic(v) {
      HeadSizesMatchTypes(v.items, t.fields);
      HeadsHaveLength(v.items, HeadsLength(v.items));
      StaticHasNoTails(v.items);
    }
  }

  lemma {:induction false} HeadSizesMatchTypes(vs: seq<Value>, ts: seq<Type>)
    requires HaveTypes(vs, ts)
    ensures HeadsLength(vs) == HeadSizesOf(ts)
    decreases vs
  {
    if vs != [] {
      HeadSizeMatchesType(vs[0], ts[0]);
      HeadSizesMatchTypes(vs[1..], ts[1..]);
    }
  }

  /** Elements that take up room are no more numerous than the bytes of their heads. */
  lemma {:induction false} CountFitsHeads(vs: seq<Value>, t: Type)
    requires HeadSizeOf(t) > 0
    requires HaveTypes(vs, Repeat(t, |vs|))
    ensures |vs| <= HeadsLength(vs)
    decreases vs
  {
    if vs != [] {
      HeadSizeMatchesType(vs[0], t);
      assert Repeat(t, |vs|)[1..] == Repeat(t, |vs| - 1);
      CountFitsHeads(vs[1..], t);
    }
  }

  // ----- Round trip -----

  /** `x` stands in `buf` at position `at`. */
  predicate Holds(buf: seq<byte>, at: nat, x: seq<byte>) {
    at <= |buf| && x <= buf[at..]
  }

  lemma HoldsParts(buf: seq<byte>, at: nat, x: seq<byte>, y: seq<byte>)
    requires Holds(buf, at, x + y)
    ensures Holds(buf, at, x) && Holds(buf, at + |x|, y)
  {
    assert buf[at..][..|x + y|] == x + y;
    assert buf[at + |x|..] == buf[at..][|x|..];
  }

  lemma HoldsSlice(buf: seq<byte>, at: nat, x: seq<byte>)
    requires Holds(buf, at, x)
    ensures at + |x| <= |buf| && buf[at..at + |x|] == x
  {
    assert buf[at..at + |x|] == buf[at..][..|x|];
  }

  lemma ReadWordAt(buf: seq<byte>, at: nat, n: nat)
    requires Holds(buf, at, Word(n))
    requires n < TWO_TO_64
    ensures ReadWord(buf, at) == Some(n)
  {
    HoldsSlice(buf, at, Word(n));
    Pow256Widths();
    Pow256Monotone(8, 32);
    BigEndianRoundTrip(n, 32);
  }

  lemma DecodeEncodedBytes(bytes: seq<byte>, buf: seq<byte>)
    requires Holds(buf, 0, Encode(VBytes(bytes)))
    requires |bytes| < TWO_TO_64
    ensures DecodeBytes(buf) == Some(VBytes(bytes))
  {
    var padding := Zeros(PadTo32(|bytes|) - |bytes|);
    HoldsParts(buf, 0, Word(|bytes|), bytes + padding);
    HoldsParts(buf, 32, bytes, padding);
    HoldsSlice(buf, 32, bytes);
    ReadWordAt(buf, 0, |bytes|);
  }

  lemma DecodeEncodedWord(v: Value, t: Type, buf: seq<byte>)
    requires HasType(v, t) && (t.TUint? || t.TFixed?)
    requires Holds(buf, 0, Encode(v))
    ensures Decode(t, buf) == Some(v)
  {
    if t.TUint? {
      ReadWordAt(buf, 0, v.n);
    } else {
      var padding := Zeros(32 - t.size);
      HoldsParts(buf, 0, v.word, padding);
      HoldsSlice(buf, 0, v.word);
      HoldsSlice(buf, t.size, padding);
    }
  }

  /** Decoding any buffer that begins with the encoding of a typed value gives the value back. */
  lemma {:induction false} DecodeEncode(v: Value, t: Type, buf: seq<byte>)
    requires HasType(v, t)
    requires Holds(buf, 0, Encode(v))
    requires |Encode(v)| < TWO_TO_64
    ensures Decode(t, buf) == Some(v)
    decreases v, 0
  {
    match v
    case VUint(_) => DecodeEncodedWord(v, t, buf);
    case VFixed(_) => DecodeEncodedWord(v, t, buf);
    case VBytes(bytes) => DecodeEncodedBytes(bytes, buf);
    case VTuple(items) => DecodeEncodeSequence(items, t.fields, buf);
    case VArray(items) =>
      var body := Heads(items, HeadsLength(items)) + Tails(items);
      HoldsParts(buf, 0, Word(|items|), body);
      HeadsHaveLength(items, HeadsLength(items));
      CountFitsHeads(items, t.element);
      ReadWordAt(buf, 0, |items|);
      DecodeEncodeSequence(items, Repeat(t.element, |items|), buf[32..]);
  }

  lemma {:induction false} DecodeEncodeSequence(vs: seq<Value>, ts: seq<Type>, buf: seq<byte>)
    requires HaveTypes(vs, ts)
    requires Holds(buf, 0, Heads(vs, HeadsLength(vs)) + Tails(vs))
    requires |Heads(vs, HeadsLength(vs))| + |Tails(vs)| < TWO_TO_64
    ensures DecodeAll(ts, buf, 0) == Some(vs)
    decreases vs, 1
  {
    HeadsHaveLength(vs, HeadsLength(vs));
    HoldsParts(buf, 0, Heads(vs, HeadsLength(vs)), Tails(vs));
    DecodeEncodeAll(vs, ts, buf, 0, HeadsLength(vs));
  }

  /** The values still to be decoded have their heads at `at` and their tails from `offset` on. */
  lemma {:induction false} DecodeEncodeAll(vs: seq<Value>, ts: seq<Type>, buf: seq<byte>, at: nat, offset: nat)
    requires HaveTypes(vs, ts)
    requires Holds(buf, at, Heads(vs, offset)) && Holds(buf, offset, Tails(vs))
    requires HeadsLength(vs) < TWO_TO_64 && offset + |Tails(vs)| < TWO_TO_64
    ensures DecodeAll(ts, buf, at) == Some(vs)
    decreases vs, 0
  {
    hide Holds, Dynamic, HeadOf, TailOf, Encode, Decode, HasType;
    if vs != [] {
      var v, rest, next := vs[0], vs[1..], offset + |TailOf(vs[0])|;
      HoldsParts(buf, at, HeadOf(v, offset), Heads(rest, next));
      HoldsParts(buf, offset, TailOf(v), Tails(rest));
      HeadOfLength(v, offset);
      DecodeEncodeFirst(v, ts[0], buf, at, offset);
      HeadSizeMatchesType(v, ts[0]);
      DecodeEncodeAll(rest, ts[1..], buf, at + HeadSize(v), next);
      assert [v] + rest == vs;
    }
  }

  /** Where a component is found: at its offset if dynamic, in place otherwise. */
  lemma {:induction false} DecodeEncodeFirst(v: Value, t: Type, buf: seq<byte>, at: nat, offset: nat)
    requires HasType(v, t)
    requires Holds(buf, at, HeadOf(v, offset)) && Holds(buf, offset, TailOf(v))
    requires |HeadOf(v, offset)| < TWO_TO_64 && offset + |TailOf(v)| < TWO_TO_64
    ensures var from := if DynamicType(t) then ReadWord(buf, at) else Some(at);
            && from.Some? && from.value <= |buf|
            && Decode(t, buf[from.value..]) == Some(v)
    decreases v, 1
  {
    DynamicMatchesType(v, t);
    if Dynamic(v) {
      ReadWordAt(buf, at, offset);
      DecodeEncode(v, t, buf[offset..]);
    } else {
      DecodeEncode(v, t, buf[at..]);
    }
  }

  // ----- Layout -----

  /**
   * Where each component is found: its head after the preceding heads, holding for a dynamic component the running
   * sum of all heads and the preceding tails; its tail after the preceding tails.
   */
  lemma {:induction false} ComponentAt(vs: seq<Value>, offset: nat, i: nat)
    requires i < |vs|
    ensures Holds(Heads(vs, offset), HeadsLength(vs[..i]), HeadOf(vs[i], offset + |Tails(vs[..i])|))
    ensures Holds(Tails(vs), |Tails(vs[..i])|, TailOf(vs[i]))
    decreases i
  {
    hide Holds, HeadOf, TailOf, HeadSize;
    var v, rest, next := vs[0], vs[1..], offset + |TailOf(vs[0])|;
    HeadOfLength(v, offset);
    if i == 0 {
      assert vs[..0] == [];
      FirstHolds(HeadOf(v, offset), Heads(rest, next));
      FirstHolds(TailOf(v), Tails(rest));
    } else {
      TakeStep(vs, i);
      var at, before := HeadsLength(rest[..i - 1]), |Tails(rest[..i - 1])|;
      ComponentAt(rest, next, i - 1);
      HoldsAfter(HeadOf(v, offset), Heads(rest, next), at, HeadOf(vs[i], next + before));
      HoldsAfter(TailOf(v), Tails(rest), before, TailOf(vs[i]));
    }
  }

  lemma TakeStep(vs: seq<Value>, i: nat)
    requires 0 < i < |vs|
    ensures HeadsLength(vs[..i]) == HeadSize(vs[0]) + HeadsLength(vs[1..][..i - 1])
    ensures |Tails(vs[..i])| == |TailOf(vs[0])| + |Tails(vs[1..][..i - 1])|
  {
    assert vs[..i][1..] == vs[1..][..i - 1];
  }

  lemma FirstHolds(x: seq<byte>, after: seq<byte>)
    ensures Holds(x + after, 0, x)
  {
  }

  lemma HoldsAfter(before: seq<byte>, buf: seq<byte>, at: nat, x: seq<byte>)
    requires Holds(buf, at, x)
    ensures Holds(before + buf, |before| + at, x)
  {
    assert (before + buf)[|before| + at..] == buf[at..];
  }

  lemma {:induction false} TakeNext(vs: seq<Value>, i: nat)
    requires i < |vs|
    ensures HeadsLength(vs[..i + 1]) == HeadsLength(vs[..i]) + HeadSize(vs[i])
    ensures |Tails(vs[..i + 1])| == |Tails(vs[..i])| + |TailOf(vs[i])|
    decreases i
  {
    if i == 0 {
      assert vs[..1] == [vs[0]] && vs[..1][1..] == [] && vs[..0] == [];
    } else {
      TakeNext(vs[1..], i - 1);
      assert vs[..i + 1][1..] == vs[1..][..i] && vs[..i][1..] == vs[1..][..i - 1];
    }
  }

  function SumTo(ns: seq<nat>, i: nat): nat
    requires i <= |ns|
    decreases i
  {
    if i == 0 then 0 else SumTo(ns, i - 1) + ns[i - 1]
  }

  /** A static component stands in the head itself. */
  lemma StaticComponent(vs: seq<Value>, i: nat)
    requires i < |vs| && !Dynamic(vs[i])
    ensures Holds(Encode(VTuple(vs)), HeadsLength(vs[..i]), Encode(vs[i]))
    ensures Holds(Encode(VArray(vs)), 32 + HeadsLength(vs[..i]), Encode(vs[i]))
  {
    var start := HeadsLength(vs);
    ComponentAt(vs, start, i);
    HoldsBefore(Heads(vs, start), Tails(vs), HeadsLength(vs[..i]), Encode(vs[i]));
    HoldsAfter(Word(|vs|), Heads(vs, start) + Tails(vs), HeadsLength(vs[..i]), Encode(vs[i]));
  }

  /** The length of `n` items of one size. */
  function Multiple(size: nat, n: nat): nat
    decreases n
  {
    if n == 0 then 0 else Multiple(size, n - 1) + size
  }

  lemma {:induction false} MultipleOfWords(n: nat)
    ensures Multiple(32, n) == 32 * n && Multiple(96, n) == 96 * n
  {
    if n > 0 {
      MultipleOfWords(n - 1);
    }
  }

  lemma {:induction false} UniformHeads(vs: seq<Value>, size: nat, i: nat)
    requires i <= |vs|
    requires forall k :: 0 <= k < |vs| ==> HeadSize(vs[k]) == size
    ensures HeadsLength(vs[..i]) == Multiple(size, i)
  {
    if i == 0 {
      assert vs[..0] == [];
    } else {
      UniformHeads(vs, size, i - 1);
      TakeNext(vs, i - 1);
    }
  }

  /** Elements of one size follow the count of an array at regular distances. */
  lemma ArrayElement(vs: seq<Value>, size: nat, i: nat)
    requires i < |vs|
    requires forall k :: 0 <= k < |vs| ==> !Dynamic(vs[k]) && |Encode(vs[k])| == size
    ensures Holds(Encode(VArray(vs)), 0, Word(|vs|))
    ensures Holds(Encode(VArray(vs)), 32 + Multiple(size, i), Encode(vs[i]))
  {
    UniformHeads(vs, size, i);
    StaticComponent(vs, i);
  }

  /** Every head is one word, and the tails have the given lengths. */
  predicate Measured(vs: seq<Value>, tails: seq<nat>) {
    && |vs| == |tails|
    && forall k :: 0 <= k < |vs| ==> HeadSize(vs[k]) == 32 && |TailOf(vs[k])| == tails[k]
  }

  lemma {:induction false} PrefixSums(vs: seq<Value>, tails: seq<nat>, i: nat)
    requires Measured(vs, tails) && i <= |vs|
    ensures HeadsLength(vs[..i]) == 32 * i
    ensures |Tails(vs[..i])| == SumTo(tails, i)
  {
    if i == 0 {
      assert vs[..0] == [];
    } else {
      PrefixSums(vs, tails, i - 1);
      TakeNext(vs, i - 1);
    }
  }

  lemma MeasuredLength(vs: seq<Value>, tails: seq<nat>)
    requires Measured(vs, tails)
    ensures HeadsLength(vs) == 32 * |vs|
    ensures |Encode(VTuple(vs))| == 32 * |vs| + SumTo(tails, |vs|)
  {
    PrefixSums(vs, tails, |vs|);
    assert vs[..|vs|] == vs;
    HeadsHaveLength(vs, HeadsLength(vs));
  }

  /** Head `at` of an encoded tuple points to `offset`, where `part` is encoded. */
  predicate PointsTo(tuple: seq<byte>, at: nat, offset: nat, part: seq<byte>) {
    Holds(tuple, at, Word(offset)) && Holds(tuple, offset, part)
  }

  lemma Enclosed(heads: seq<byte>, tails: seq<byte>, at: nat, offset: nat, before: nat, part: seq<byte>)
    requires Holds(heads, at, Word(offset)) && Holds(tails, before, part)
    requires offset == |heads| + before
    ensures PointsTo(heads + tails, at, offset, part)
  {
    HoldsBefore(heads, tails, at, Word(offset));
    HoldsAfter(heads, tails, before, part);
  }

  lemma DynamicParts(v: Value, offset: nat)
    requires Dynamic(v)
    ensures HeadOf(v, offset) == Word(offset) && TailOf(v) == Encode(v)
  {
  }

  /** A dynamic component: its head points past all heads and the preceding tails, to where it is encoded. */
  lemma DynamicComponent(vs: seq<Value>, i: nat)
    requires i < |vs| && Dynamic(vs[i])
    ensures PointsTo(Encode(VTuple(vs)), HeadsLength(vs[..i]), HeadsLength(vs) + |Tails(vs[..i])|, Encode(vs[i]))
  {
    hide Dynamic, HeadOf, TailOf, Heads, Tails, HeadsLength, PointsTo, Holds;
    var start, before := HeadsLength(vs), |Tails(vs[..i])|;
    HeadsHaveLength(vs, start);
    ComponentAt(vs, start, i);
    DynamicParts(vs[i], start + before);
    Enclosed(Heads(vs, start), Tails(vs), HeadsLength(vs[..i]), start + before, before, Encode(vs[i]));
  }

  /** The layout of a tuple of measured components: head `i` points to where component `i` is encoded. */
  lemma TupleLayout(vs: seq<Value>, tails: seq<nat>, i: nat)
    requires Measured(vs, tails)
    requires i < |vs| && Dynamic(vs[i])
    ensures PointsTo(Encode(VTuple(vs)), 32 * i, 32 * |vs| + SumTo(tails, i), Encode(vs[i]))
  {
    hide PointsTo, Encode;
    MeasuredLength(vs, tails);
    PrefixSums(vs, tails, i);
    DynamicComponent(vs, i);
  }

  lemma HoldsWithin(buf: seq<byte>, at: nat, x: seq<byte>, inner: nat, y: seq<byte>)
    requires Holds(buf, at, x) && Holds(x, inner, y)
    ensures Holds(buf, at + inner, y)
  {
    HoldsSlice(x, inner, y);
    var before, after := x[..inner], x[inner + |y|..];
    assert x == before + (y + after);
    HoldsParts(buf, at, before, y + after);
    HoldsParts(buf, at + inner, y, after);
  }

  lemma HoldsBefore(buf: seq<byte>, after: seq<byte>, at: nat, x: seq<byte>)
    requires Holds(buf, at, x)
    ensures Holds(buf + after, at, x)
  {
    assert (buf + after)[at..] == buf[at..] + after;
  }

  /** Every encoding of a typed value is a whole number of words. */
  lemma {:induction false} EncodeIsAligned(v: Value, t: Type)
    requires HasType(v, t)
    ensures |Encode(v)| % 32 == 0
    decreases v, 0
  {
    match v
    case VUint(_) =>
    case VFixed(_) =>
    case VBytes(bytes) => SumAligned(32, PadTo32(|bytes|));
    case VTuple(items) => SequenceAligned(items, t.fields);
    case VArray(items) =>
      SequenceAligned(items, Repeat(t.element, |items|));
      SumAligned(32, |Heads(items, HeadsLength(items)) + Tails(items)|);
  }

  lemma {:induction false} SequenceAligned(vs: seq<Value>, ts: seq<Type>)
    requires HaveTypes(vs, ts)
    ensures |Heads(vs, HeadsLength(vs)) + Tails(vs)| % 32 == 0
    decreases vs, 1
  {
    HeadsHaveLength(vs, HeadsLength(vs));
    AllAligned(vs, ts);
    SumAligned(HeadsLength(vs), |Tails(vs)|);
  }

  lemma {:induction false} AllAligned(vs: seq<Value>, ts: seq<Type>)
    requires HaveTypes(vs, ts)
    ensures HeadsLength(vs) % 32 == 0 && |Tails(vs)| % 32 == 0
    decreases vs, 0
  {
    if vs != [] {
      EncodeIsAligned(vs[0], ts[0]);
      AllAligned(vs[1..], ts[1..]);
      SumAligned(HeadSize(vs[0]), HeadsLength(vs[1..]));
      SumAligned(|TailOf(vs[0])|, |Tails(vs[1..])|);
    }
  }

  lemma SumAligned(x: nat, y: nat)
    requires x % 32 == 0 && y % 32 == 0
    ensures (x + y) % 32 == 0
  {
  }

  /** Bytes that one component adds to a tuple. */
  function Share(v: Value): nat {
    if Dynamic(v) then 32 + |Encode(v)| else |Encode(v)|
  }

  function Shares(vs: seq<Value>): nat {
    if vs == [] then 0 else Share(vs[0]) + Shares(vs[1..])
  }

  lemma {:induction false} TupleLength(vs: seq<Value>)
    ensures HeadsLength(vs) + |Tails(vs)| == Shares(vs)
    ensures |Encode(VTuple(vs))| == Shares(vs)
    ensures |Encode(VArray(vs))| == 32 + Shares(vs)
  {
    HeadsHaveLength(vs, HeadsLength(vs));
    if vs != [] {
      TupleLength(vs[1..]);
    }
  }

  lemma {:induction false} UniformShares(vs: seq<Value>, size: nat)
    requires forall i :: 0 <= i < |vs| ==> Share(vs[i]) == size
    ensures Shares(vs) == Multiple(size, |vs|)
  {
    if vs != [] {
      UniformShares(vs[1..], size);
    }
  }

  // ----- Whole parameters -----

  /** The encoding of a value as the only parameter of a call, which is how the schema's values are encoded. */
  function EncodeParameter(v: Value): seq<byte> {
    Encode(VTuple([v]))
  }

  function DecodeParameter(t: Type, buf: seq<byte>): (r: Option<Value>)
    ensures r.Some? ==> HasType(r.value, t)
  {
    match Decode(TTuple([t]), buf)
    case None => None
    case Some(v) =>
      DecodedIsTyped(TTuple([t]), buf);
      Some(v.items[0])
  }

  lemma ParameterRoundTrip(v: Value, t: Type)
    requires HasType(v, t)
    requires |EncodeParameter(v)| < TWO_TO_64
    ensures DecodeParameter(t, EncodeParameter(v)) == Some(v)
  {
    assert HaveTypes([v], [t]);
    DecodeEncode(VTuple([v]), TTuple([t]), EncodeParameter(v));
  }
}
