/** The types shared with the on-chain verifier, and their ABI codec. */
module Journal {
  import opened Basics
  import opened Errors
  import opened Utf8
  import opened Abi

  // ----- Types -----

  type B128 = s: seq<byte> | |s| == 16 witness Zeros(16)

  /** A 48-byte measurement as the attestation document holds it. */
  type Measurement = s: seq<byte> | |s| == 48 witness Zeros(48)

  datatype VerificationResult =
    | Unknown
    | Success
    | RootCertNotTrusted
    | IntermediateCertsNotTrusted
    | InvalidTimestamp

  datatype Bytes48 = Bytes48(first: B256, second: B128) {
    predicate IsZero() {
      first == Zeros(32) && second == Zeros(16)
    }

    function Concatenated(): Measurement {
      first + second
    }

    /** `to_bytes`, which fills a buffer half by half. */
    method ToBytes() returns (bytes: seq<byte>)
      ensures bytes == Concatenated()
      ensures bytes[..32] == first && bytes[32..] == second
    {
      var buf := new byte[48](_ => 0);
      forall i | 0 <= i < 32 {
        buf[i] := first[i];
      }
      forall i | 0 <= i < 16 {
        buf[32 + i] := second[i];
      }
      bytes := buf[..];
    }

    static function From(input: Measurement): Bytes48 {
      Bytes48(input[..32], input[32..])
    }
  }

  /** Splitting a measurement into halves loses nothing, and the halves are zero exactly when all its bytes are. */
  lemma Bytes48RoundTrip(input: Measurement, halves: Bytes48)
    ensures Bytes48.From(input).first == input[..32] && Bytes48.From(input).second == input[32..]
    ensures halves.Concatenated()[..32] == halves.first && halves.Concatenated()[32..] == halves.second
    ensures Bytes48.From(input).Concatenated() == input
    ensures Bytes48.From(halves.Concatenated()) == halves
    ensures Bytes48.From(input).IsZero() <==> forall i :: 0 <= i < 48 ==> input[i] == 0
  {
    var whole := halves.Concatenated();
    assert whole[..32] == halves.first && whole[32..] == halves.second;
    if Bytes48.From(input).IsZero() {
      forall i | 0 <= i < 48
        ensures input[i] == 0
      {
        assert input[i] == if i < 32 then input[..32][i] else input[32..][i - 32];
      }
    }
  }

  datatype Pcr = Pcr(index: u64, value: Bytes48)

  datatype VerifierInput = VerifierInput(trustedCertsPrefixLen: u8, attestationReport: seq<byte>)

  datatype VerifierJournal = VerifierJournal(
    result: VerificationResult,
    trustedCertsPrefixLen: u8,
    timestamp: u64,
    certs: seq<B256>,
    certExpiries: seq<u64>,
    userData: seq<byte>,
    nonce: seq<byte>,
    publicKey: seq<byte>,
    pcrs: seq<Pcr>,
    moduleId: Utf8String
  )

  datatype BatchVerifierJournal = BatchVerifierJournal(verifierVk: B256, outputs: seq<VerifierJournal>)

  // ----- ABI types -----

  const UINT8: Type := TUint(0x100)
  const UINT64: Type := TUint(TWO_TO_64)
  const RESULT_TYPE: Type := TUint(5)
  const BYTES48_TYPE: Type := TTuple([TFixed(32), TFixed(16)])
  const PCR_TYPE: Type := TTuple([UINT64, BYTES48_TYPE])
  const INPUT_TYPE: Type := TTuple([UINT8, TBytes])
  const JOURNAL_FIELDS: seq<Type> := [
    RESULT_TYPE, UINT8, UINT64, TArray(TFixed(32)), TArray(UINT64), TBytes, TBytes, TBytes, TArray(PCR_TYPE), TString
  ]
  const JOURNAL_TYPE: Type := TTuple(JOURNAL_FIELDS)
  const BATCH_TYPE: Type := TTuple([TFixed(32), TArray(JOURNAL_TYPE)])

  // ----- Conversion to ABI values -----

  function ResultCode(r: VerificationResult): nat {
    match r
    case Unknown => 0
    case Success => 1
    case RootCertNotTrusted => 2
    case IntermediateCertsNotTrusted => 3
    case InvalidTimestamp => 4
  }

  function PcrToAbi(p: Pcr): Value {
    VTuple([VUint(p.index), VTuple([VFixed(p.value.first), VFixed(p.value.second)])])
  }

  function InputToAbi(i: VerifierInput): Value {
    VTuple([VUint(i.trustedCertsPrefixLen), VBytes(i.attestationReport)])
  }

  function CertsToAbi(certs: seq<B256>): (vs: seq<Value>)
    ensures |vs| == |certs|
  {
    seq(|certs|, i requires 0 <= i < |certs| => VFixed(certs[i]))
  }

  function ExpiriesToAbi(es: seq<u64>): (vs: seq<Value>)
    ensures |vs| == |es|
  {
    seq(|es|, i requires 0 <= i < |es| => VUint(es[i]))
  }

  function PcrsToAbi(ps: seq<Pcr>): (vs: seq<Value>)
    ensures |vs| == |ps|
  {
    seq(|ps|, i requires 0 <= i < |ps| => PcrToAbi(ps[i]))
  }

  function JournalItems(j: VerifierJournal): (vs: seq<Value>)
    ensures |vs| == 10
  {
    [
      VUint(ResultCode(j.result)),
      VUint(j.trustedCertsPrefixLen),
      VUint(j.timestamp),
      VArray(CertsToAbi(j.certs)),
      VArray(ExpiriesToAbi(j.certExpiries)),
      VBytes(j.userData),
      VBytes(j.nonce),
      VBytes(j.publicKey),
      VArray(PcrsToAbi(j.pcrs)),
      VBytes(j.moduleId)
    ]
  }

  function JournalToAbi(j: VerifierJournal): Value {
    VTuple(JournalItems(j))
  }

  function JournalsToAbi(js: seq<VerifierJournal>): (vs: seq<Value>)
    ensures |vs| == |js|
  {
    seq(|js|, i requires 0 <= i < |js| => JournalToAbi(js[i]))
  }

  function BatchToAbi(b: BatchVerifierJournal): Value {
    VTuple([VFixed(b.verifierVk), VArray(JournalsToAbi(b.outputs))])
  }

  // ----- The converted values have the ABI types -----

  lemma ArrayHasType(vs: seq<Value>, t: Type)
    requires HeadSizeOf(t) > 0
    ensures HasType(VArray(vs), TArray(t)) <==> forall i :: 0 <= i < |vs| ==> HasType(vs[i], t)
  {
    HaveTypesAt(vs, Repeat(t, |vs|));
  }

  lemma PairHasType(a: Value, b: Value, t: Type, u: Type)
    ensures HasType(VTuple([a, b]), TTuple([t, u])) <==> HasType(a, t) && HasType(b, u)
  {
    HaveTypesAt([a, b], [t, u]);
  }

  lemma PcrHasType(p: Pcr)
    ensures HasType(PcrToAbi(p), PCR_TYPE)
  {
    PairHasType(VFixed(p.value.first), VFixed(p.value.second), TFixed(32), TFixed(16));
    PairHasType(VUint(p.index), VTuple([VFixed(p.value.first), VFixed(p.value.second)]), UINT64, BYTES48_TYPE);
  }

  /** Array elements of the schema take up room, so their number is bounded by the length of the encoding. */
  lemma ElementSizes()
    ensures HeadSizeOf(PCR_TYPE) == 96
    ensures HeadSizeOf(JOURNAL_TYPE) == 32
  {
    StaticPairSize(TFixed(32), TFixed(16));
    StaticPairSize(UINT64, BYTES48_TYPE);
    AnyDynamicTypeAt(JOURNAL_FIELDS, 3);
  }

  lemma StaticPairSize(t: Type, u: Type)
    requires !DynamicType(t) && !DynamicType(u)
    ensures !DynamicType(TTuple([t, u]))
    ensures HeadSizeOf(TTuple([t, u])) == HeadSizeOf(t) + HeadSizeOf(u)
  {
    assert [t, u][1..] == [u] && [u][1..] == [];
    assert !AnyDynamicType([u]) && !AnyDynamicType([t, u]);
    assert HeadSizesOf([u]) == HeadSizeOf(u);
    assert HeadSizesOf([t, u]) == HeadSizeOf(t) + HeadSizeOf(u);
  }

  lemma PcrsHaveType(ps: seq<Pcr>)
    ensures HasType(VArray(PcrsToAbi(ps)), TArray(PCR_TYPE))
  {
    hide HasType, PcrToAbi;
    ElementSizes();
    forall i | 0 <= i < |ps|
      ensures HasType(PcrsToAbi(ps)[i], PCR_TYPE)
    {
      PcrHasType(ps[i]);
    }
    ArrayHasType(PcrsToAbi(ps), PCR_TYPE);
  }

  lemma FieldHasType(j: VerifierJournal, i: nat)
    requires i < 10
    ensures HasType(JournalItems(j)[i], JOURNAL_FIELDS[i])
  {
    if i == 3 {
      ArrayHasType(CertsToAbi(j.certs), TFixed(32));
    } else if i == 4 {
      ArrayHasType(ExpiriesToAbi(j.certExpiries), UINT64);
    } else if i == 8 {
      PcrsHaveType(j.pcrs);
    }
  }

  lemma JournalHasType(j: VerifierJournal)
    ensures HasType(JournalToAbi(j), JOURNAL_TYPE)
  {
    hide JournalItems, HaveTypes;
    var vs := JournalItems(j);
    forall i | 0 <= i < 10
      ensures HasType(vs[i], JOURNAL_FIELDS[i])
    {
      FieldHasType(j, i);
    }
    HaveTypesAt(vs, JOURNAL_FIELDS);
  }

  lemma BatchHasType(b: BatchVerifierJournal)
    ensures HasType(BatchToAbi(b), BATCH_TYPE)
  {
    ElementSizes();
    var vs := JournalsToAbi(b.outputs);
    forall i | 0 <= i < |vs|
      ensures HasType(vs[i], JOURNAL_TYPE)
    {
      JournalHasType(b.outputs[i]);
    }
    ArrayHasType(vs, JOURNAL_TYPE);
    PairHasType(VFixed(b.verifierVk), VArray(vs), TFixed(32), TArray(JOURNAL_TYPE));
  }

  // ----- Conversion from typed ABI values -----

  function ResultFrom(code: nat): VerificationResult
    requires code < 5
  {
    match code
    case 0 => Unknown
    case 1 => Success
    case 2 => RootCertNotTrusted
    case 3 => IntermediateCertsNotTrusted
    case 4 => InvalidTimestamp
  }

  /** The items of a typed tuple, one by one. */
  function Fields(v: Value, ts: seq<Type>): (vs: seq<Value>)
    requires HasType(v, TTuple(ts))
    ensures v == VTuple(vs) && |vs| == |ts|
    ensures forall i :: 0 <= i < |vs| ==> HasType(vs[i], ts[i])
  {
    HaveTypesAt(v.items, ts);
    v.items
  }

  /** The elements of a typed array. */
  function Elements(v: Value, t: Type): (vs: seq<Value>)
    requires HasType(v, TArray(t))
    ensures v == VArray(vs)
    ensures forall i :: 0 <= i < |vs| ==> HasType(vs[i], t)
  {
    HaveTypesAt(v.items, Repeat(t, |v.items|));
    v.items
  }

  function PcrFrom(v: Value): Pcr
    requires HasType(v, PCR_TYPE)
  {
    var vs := Fields(v, [UINT64, BYTES48_TYPE]);
    var halves := Fields(vs[1], [TFixed(32), TFixed(16)]);
    Pcr(vs[0].n, Bytes48(halves[0].word, halves[1].word))
  }

  function InputFrom(v: Value): VerifierInput
    requires HasType(v, INPUT_TYPE)
  {
    var vs := Fields(v, [UINT8, TBytes]);
    VerifierInput(vs[0].n, vs[1].bytes)
  }

  function CertsFrom(v: Value): seq<B256>
    requires HasType(v, TArray(TFixed(32)))
  {
    var vs := Elements(v, TFixed(32));
    seq<B256>(|vs|, i requires 0 <= i < |vs| => vs[i].word)
  }

  function ExpiriesFrom(v: Value): seq<u64>
    requires HasType(v, TArray(UINT64))
  {
    var vs := Elements(v, UINT64);
    seq<u64>(|vs|, i requires 0 <= i < |vs| => vs[i].n)
  }

  function PcrsFrom(v: Value): seq<Pcr>
    requires HasType(v, TArray(PCR_TYPE))
  {
    var vs := Elements(v, PCR_TYPE);
    seq(|vs|, i requires 0 <= i < |vs| => PcrFrom(vs[i]))
  }

  function JournalFrom(v: Value): VerifierJournal
    requires HasType(v, JOURNAL_TYPE)
  {
    var vs := Fields(v, JOURNAL_FIELDS);
    VerifierJournal(
      ResultFrom(vs[0].n), vs[1].n, vs[2].n, CertsFrom(vs[3]), ExpiriesFrom(vs[4]),
      vs[5].bytes, vs[6].bytes, vs[7].bytes, PcrsFrom(vs[8]), vs[9].bytes)
  }

  function BatchFrom(v: Value): BatchVerifierJournal
    requires HasType(v, BATCH_TYPE)
  {
    var vs := Fields(v, [TFixed(32), TArray(JOURNAL_TYPE)]);
    var outputs := Elements(vs[1], JOURNAL_TYPE);
    BatchVerifierJournal(vs[0].word, seq(|outputs|, i requires 0 <= i < |outputs| => JournalFrom(outputs[i])))
  }

  lemma PcrsFromTo(ps: seq<Pcr>)
    ensures HasType(VArray(PcrsToAbi(ps)), TArray(PCR_TYPE))
    ensures PcrsFrom(VArray(PcrsToAbi(ps))) == ps
  {
    PcrsHaveType(ps);
    forall i | 0 <= i < |ps|
      ensures HasType(PcrsToAbi(ps)[i], PCR_TYPE) && PcrFrom(PcrsToAbi(ps)[i]) == ps[i]
    {
      PcrHasType(ps[i]);
    }
  }

  lemma JournalFromTo(j: VerifierJournal)
    ensures HasType(JournalToAbi(j), JOURNAL_TYPE)
    ensures JournalFrom(JournalToAbi(j)) == j
  {
    JournalHasType(j);
    PcrsFromTo(j.pcrs);
    var vs := Fields(JournalToAbi(j), JOURNAL_FIELDS);
    assert CertsFrom(vs[3]) == j.certs;
    assert ExpiriesFrom(vs[4]) == j.certExpiries;
  }

  lemma BatchFromTo(b: BatchVerifierJournal)
    ensures HasType(BatchToAbi(b), BATCH_TYPE)
    ensures BatchFrom(BatchToAbi(b)) == b
  {
    BatchHasType(b);
    forall j
      ensures HasType(JournalToAbi(j), JOURNAL_TYPE) && JournalFrom(JournalToAbi(j)) == j
    {
      JournalFromTo(j);
    }
    assert BatchFrom(BatchToAbi(b)).outputs == b.outputs;
  }

  // ----- The codec -----

  function EncodeInput(i: VerifierInput): seq<byte> {
    EncodeParameter(InputToAbi(i))
  }

  function DecodeInput(buf: seq<byte>): (r: Result<VerifierInput, VerifierError>)
    ensures r.Err? ==> r.error == AttestationFormat
  {
    match DecodeParameter(INPUT_TYPE, buf)
    case None => Err(AttestationFormat)
    case Some(v) => Ok(InputFrom(v))
  }

  function EncodeJournal(j: VerifierJournal): seq<byte> {
    EncodeParameter(JournalToAbi(j))
  }

  function DecodeJournal(buf: seq<byte>): (r: Result<VerifierJournal, VerifierError>)
    ensures r.Err? ==> r.error == AttestationFormat
  {
    match DecodeParameter(JOURNAL_TYPE, buf)
    case None => Err(AttestationFormat)
    case Some(v) => Ok(JournalFrom(v))
  }

  function EncodeBatch(b: BatchVerifierJournal): seq<byte> {
    EncodeParameter(BatchToAbi(b))
  }

  function DecodeBatch(buf: seq<byte>): (r: Result<BatchVerifierJournal, VerifierError>)
    ensures r.Err? ==> r.error == AttestationFormat
  {
    match DecodeParameter(BATCH_TYPE, buf)
    case None => Err(AttestationFormat)
    case Some(v) => Ok(BatchFrom(v))
  }

  lemma InputRoundTrip(i: VerifierInput)
    requires |EncodeInput(i)| < TWO_TO_64
    ensures DecodeInput(EncodeInput(i)) == Ok(i)
  {
    PairHasType(VUint(i.trustedCertsPrefixLen), VBytes(i.attestationReport), UINT8, TBytes);
    ParameterRoundTrip(InputToAbi(i), INPUT_TYPE);
  }

  lemma JournalRoundTrip(j: VerifierJournal)
    requires |EncodeJournal(j)| < TWO_TO_64
    ensures DecodeJournal(EncodeJournal(j)) == Ok(j)
  {
    JournalFromTo(j);
    ParameterRoundTrip(JournalToAbi(j), JOURNAL_TYPE);
  }

  lemma BatchRoundTrip(b: BatchVerifierJournal)
    requires |EncodeBatch(b)| < TWO_TO_64
    ensures DecodeBatch(EncodeBatch(b)) == Ok(b)
  {
    BatchFromTo(b);
    ParameterRoundTrip(BatchToAbi(b), BATCH_TYPE);
  }

  /** Different inputs have different encodings. */
  lemma InputsInjective(i: VerifierInput, i': VerifierInput)
    requires |EncodeInput(i)| < TWO_TO_64
    requires EncodeInput(i) == EncodeInput(i')
    ensures i == i'
  {
    InputRoundTrip(i);
    InputRoundTrip(i');
  }

  /** Different journals have different public values. */
  lemma JournalsInjective(j: VerifierJournal, j': VerifierJournal)
    requires |EncodeJournal(j)| < TWO_TO_64
    requires EncodeJournal(j) == EncodeJournal(j')
    ensures j == j'
  {
    JournalRoundTrip(j);
    JournalRoundTrip(j');
  }

  /** Different batches have different encodings. */
  lemma BatchesInjective(b: BatchVerifierJournal, b': BatchVerifierJournal)
    requires |EncodeBatch(b)| < TWO_TO_64
    requires EncodeBatch(b) == EncodeBatch(b')
    ensures b == b'
  {
    BatchRoundTrip(b);
    BatchRoundTrip(b');
  }

  // ----- Sizes and layout -----

  lemma PcrShare(p: Pcr)
    ensures !Dynamic(PcrToAbi(p)) && Share(PcrToAbi(p)) == 96
  {
    var first, second := VFixed(p.value.first), VFixed(p.value.second);
    TwoShares(first, second);
    TwoShares(VUint(p.index), VTuple([first, second]));
  }

  /** A tuple of two static values. */
  lemma TwoShares(a: Value, b: Value)
    requires !Dynamic(a) && !Dynamic(b)
    ensures !Dynamic(VTuple([a, b])) && Share(VTuple([a, b])) == Share(a) + Share(b)
  {
    assert [a, b][1..] == [b] && [b][1..] == [];
    assert !AnyDynamic([b]);
    assert Shares([b]) == Share(b);
    TupleLength([a, b]);
  }

  lemma ArrayShare(vs: seq<Value>, size: nat)
    requires forall i :: 0 <= i < |vs| ==> Share(vs[i]) == size
    ensures Share(VArray(vs)) == 64 + Multiple(size, |vs|)
  {
    UniformShares(vs, size);
    TupleLength(vs);
  }

  /** Bytes of an encoded journal, in its field lengths: eighteen fixed words and the contents of the seven arrays. */
  function JournalLength(j: VerifierJournal): nat {
    576
    + 32 * |j.certs| + 32 * |j.certExpiries|
    + PadTo32(|j.userData|) + PadTo32(|j.nonce|) + PadTo32(|j.publicKey|)
    + 96 * |j.pcrs|
    + PadTo32(|j.moduleId|)
  }

  /** Lengths of the parts of a journal that follow its heads. */
  function JournalTailLengths(j: VerifierJournal): (ns: seq<nat>)
    ensures |ns| == 10
  {
    [
      0, 0, 0,
      32 + 32 * |j.certs|,
      32 + 32 * |j.certExpiries|,
      32 + PadTo32(|j.userData|),
      32 + PadTo32(|j.nonce|),
      32 + PadTo32(|j.publicKey|),
      32 + 96 * |j.pcrs|,
      32 + PadTo32(|j.moduleId|)
    ]
  }

  lemma JournalTails(j: VerifierJournal)
    ensures Measured(JournalItems(j), JournalTailLengths(j))
  {
    MultipleOfWords(|j.certs|);
    MultipleOfWords(|j.certExpiries|);
    MultipleOfWords(|j.pcrs|);
    ArrayShare(CertsToAbi(j.certs), 32);
    ArrayShare(ExpiriesToAbi(j.certExpiries), 32);
    forall i | 0 <= i < |j.pcrs|
      ensures Share(PcrsToAbi(j.pcrs)[i]) == 96
    {
      PcrShare(j.pcrs[i]);
    }
    ArrayShare(PcrsToAbi(j.pcrs), 96);
  }

  lemma JournalDynamic(j: VerifierJournal, i: nat)
    requires 3 <= i < 10
    ensures Dynamic(JournalItems(j)[i])
  {
    assert JournalItems(j)[i].VArray? || JournalItems(j)[i].VBytes?;
  }

  /** Where the contents of field `i` start, counted from the start of the tuple. */
  function JournalOffset(j: VerifierJournal, i: nat): nat
    requires i <= 10
  {
    320 + SumTo(JournalTailLengths(j), i)
  }

  /** The public values are one word, the offset of the only parameter, and the encoded tuple. */
  lemma PublicValues(j: VerifierJournal)
    ensures EncodeJournal(j) == Word(32) + Encode(JournalToAbi(j))
  {
    hide JournalItems;
    var v := JournalToAbi(j);
    JournalDynamic(j, 3);
    AnyDynamicAt(JournalItems(j), 3);
    OneDynamicParameter(v);
  }

  lemma OneDynamicParameter(v: Value)
    requires Dynamic(v)
    ensures EncodeParameter(v) == Word(32) + Encode(v)
  {
    hide Word, Dynamic;
    OneComponent(v, 32);
    DynamicParts(v, 32);
    assert HeadSize(v) == 32;
    hide Encode, HeadOf, TailOf, Heads, Tails;
    TupleOfOne(v);
  }

  lemma OneComponent(v: Value, offset: nat)
    ensures HeadsLength([v]) == HeadSize(v)
    ensures Heads([v], offset) == HeadOf(v, offset) && Tails([v]) == TailOf(v)
  {
    hide Encode, HeadOf, TailOf, HeadSize, Dynamic;
    var none: seq<Value> := [];
    assert [v][1..] == none;
    assert HeadsLength(none) == 0 && Tails(none) == [] && Heads(none, offset + |TailOf(v)|) == [];
    assert Heads([v], offset) == HeadOf(v, offset) + [] && Tails([v]) == TailOf(v) + [];
  }

  lemma TupleOfOne(v: Value)
    ensures EncodeParameter(v) == Heads([v], HeadsLength([v])) + Tails([v])
  {
    hide Heads, Tails, HeadsLength;
  }

  /** What stands in the tuple stands one word later in the public values. */
  lemma InPublicValues(j: VerifierJournal, at: nat, x: seq<byte>)
    requires Holds(Encode(JournalToAbi(j)), at, x)
    ensures Holds(EncodeJournal(j), 32 + at, x)
  {
    hide Holds, EncodeJournal, Encode, Word;
    PublicValues(j);
    HoldsAfter(Word(32), Encode(JournalToAbi(j)), at, x);
  }

  /** The tuple's layout: the head of each dynamic field holds the offset at which its contents are found. */
  lemma FieldLayout(j: VerifierJournal, i: nat)
    requires 3 <= i < 10
    ensures PointsTo(Encode(JournalToAbi(j)), 32 * i, JournalOffset(j, i), Encode(JournalItems(j)[i]))
  {
    hide PointsTo, Encode, JournalItems, JournalTailLengths;
    JournalTails(j);
    JournalDynamic(j, i);
    TupleLayout(JournalItems(j), JournalTailLengths(j), i);
  }

  /**
   * The public values: a word that says where the tuple starts, which is right after it; in the tuple's head, for each
   * of the seven dynamic fields, the offset at which its contents are found, counted from the start of the tuple.
   */
  lemma JournalLayout(j: VerifierJournal, i: nat)
    requires 3 <= i < 10
    ensures Holds(EncodeJournal(j), 0, Word(32))
    ensures Holds(EncodeJournal(j), 32 + 32 * i, Word(JournalOffset(j, i)))
    ensures Holds(EncodeJournal(j), 32 + JournalOffset(j, i), Encode(JournalItems(j)[i]))
  {
    hide EncodeJournal, Encode, Word, JournalOffset, JournalItems;
    PublicValues(j);
    FirstHolds(Word(32), Encode(JournalToAbi(j)));
    FieldLayout(j, i);
    InPublicValues(j, 32 * i, Word(JournalOffset(j, i)));
    InPublicValues(j, JournalOffset(j, i), Encode(JournalItems(j)[i]));
  }

  /** A field of type `bytes` or `string`: its length, its contents, and zeros up to a whole word. */
  lemma StringEncoding(bytes: seq<byte>)
    ensures Encode(VBytes(bytes)) == Word(|bytes|) + (bytes + Zeros(PadTo32(|bytes|) - |bytes|))
  {
  }

  lemma ScalarAt(j: VerifierJournal, i: nat, n: nat)
    requires i < 3 && JournalItems(j)[i] == VUint(n)
    ensures Holds(Encode(JournalToAbi(j)), 32 * i, Word(n))
  {
    hide Holds, JournalItems;
    JournalTails(j);
    PrefixSums(JournalItems(j), JournalTailLengths(j), i);
    StaticComponent(JournalItems(j), i);
  }

  /**
   * The scalar fields of the public values, in order, in the words after the first. Results are numbered in the
   * order of their declaration.
   */
  lemma JournalScalars(j: VerifierJournal)
    ensures var e := EncodeJournal(j);
            && (match j.result
                case Unknown => Holds(e, 32, Word(0))
                case Success => Holds(e, 32, Word(1))
                case RootCertNotTrusted => Holds(e, 32, Word(2))
                case IntermediateCertsNotTrusted => Holds(e, 32, Word(3))
                case InvalidTimestamp => Holds(e, 32, Word(4)))
            && Holds(e, 64, Word(j.trustedCertsPrefixLen))
            && Holds(e, 96, Word(j.timestamp))
  {
    hide Holds, Encode, JournalToAbi, EncodeJournal;
    ScalarAt(j, 0, ResultCode(j.result));
    ScalarAt(j, 1, j.trustedCertsPrefixLen);
    ScalarAt(j, 2, j.timestamp);
    InPublicValues(j, 0, Word(ResultCode(j.result)));
    InPublicValues(j, 32, Word(j.trustedCertsPrefixLen));
    InPublicValues(j, 64, Word(j.timestamp));
  }

  /** The byte strings of a journal stand in the public values at their offsets: length, contents, zeros. */
  lemma JournalStrings(j: VerifierJournal)
    ensures var e := EncodeJournal(j);
            && Holds(e, 32 + JournalOffset(j, 5),
                     Word(|j.userData|) + (j.userData + Zeros(PadTo32(|j.userData|) - |j.userData|)))
            && Holds(e, 32 + JournalOffset(j, 6), Word(|j.nonce|) + (j.nonce + Zeros(PadTo32(|j.nonce|) - |j.nonce|)))
            && Holds(e, 32 + JournalOffset(j, 7),
                     Word(|j.publicKey|) + (j.publicKey + Zeros(PadTo32(|j.publicKey|) - |j.publicKey|)))
            && Holds(e, 32 + JournalOffset(j, 9),
                     Word(|j.moduleId|) + (j.moduleId + Zeros(PadTo32(|j.moduleId|) - |j.moduleId|)))
  {
    hide Holds, JournalOffset, EncodeJournal;
    StringAt(j, 5, j.userData);
    StringAt(j, 6, j.nonce);
    StringAt(j, 7, j.publicKey);
    StringAt(j, 9, j.moduleId);
  }

  lemma StringAt(j: VerifierJournal, i: nat, bytes: seq<byte>)
    requires 3 <= i < 10 && JournalItems(j)[i] == VBytes(bytes)
    ensures Holds(EncodeJournal(j), 32 + JournalOffset(j, i),
                  Word(|bytes|) + (bytes + Zeros(PadTo32(|bytes|) - |bytes|)))
  {
    hide Holds, JournalItems, JournalOffset, EncodeJournal, Encode;
    JournalLayout(j, i);
    StringEncoding(bytes);
  }

  /** A PCR is its index, the first 32 bytes of its value, and the last 16 followed by zeros. */
  function PcrBytes(p: Pcr): seq<byte> {
    Word(p.index) + (p.value.first + (p.value.second + Zeros(16)))
  }

  lemma PcrEncoding(p: Pcr)
    ensures Encode(PcrToAbi(p)) == PcrBytes(p)
  {
    var first, second := VFixed(p.value.first), VFixed(p.value.second);
    TwoShares(first, second);
    StaticPairEncoding(first, second);
    StaticPairEncoding(VUint(p.index), VTuple([first, second]));
  }

  lemma StaticPairEncoding(a: Value, b: Value)
    requires !Dynamic(a) && !Dynamic(b)
    ensures Encode(VTuple([a, b])) == Encode(a) + Encode(b)
  {
    var vs, start := [a, b], HeadsLength([a, b]);
    assert vs[1..] == [b] && [b][1..] == [];
    assert Heads([b], start) == Encode(b) + [] && Tails([b]) == [];
    assert Heads(vs, start) == Encode(a) + Encode(b) && Tails(vs) == [];
  }

  lemma ElementAt(j: VerifierJournal, field: nat, vs: seq<Value>, size: nat, i: nat)
    requires 3 <= field < 10 && JournalItems(j)[field] == VArray(vs)
    requires i < |vs|
    requires forall k :: 0 <= k < |vs| ==> !Dynamic(vs[k]) && Share(vs[k]) == size
    ensures Holds(EncodeJournal(j), 32 + JournalOffset(j, field) + 32 + Multiple(size, i), Encode(vs[i]))
  {
    hide Holds, JournalItems, JournalOffset, EncodeJournal, Encode;
    JournalLayout(j, field);
    ArrayElement(vs, size, i);
    HoldsWithin(EncodeJournal(j), 32 + JournalOffset(j, field), Encode(VArray(vs)), 32 + Multiple(size, i),
                Encode(vs[i]));
  }

  /** An array begins with its number of elements. */
  lemma CountAt(j: VerifierJournal, field: nat, vs: seq<Value>)
    requires 3 <= field < 10 && JournalItems(j)[field] == VArray(vs)
    ensures Holds(EncodeJournal(j), 32 + JournalOffset(j, field), Word(|vs|))
  {
    ArrayCount(vs);
    hide Holds, JournalItems, JournalOffset, EncodeJournal, Encode;
    JournalLayout(j, field);
    HoldsWithin(EncodeJournal(j), 32 + JournalOffset(j, field), Encode(VArray(vs)), 0, Word(|vs|));
  }

  lemma ArrayCount(vs: seq<Value>)
    ensures Holds(Encode(VArray(vs)), 0, Word(|vs|))
  {
    FirstHolds(Word(|vs|), Heads(vs, HeadsLength(vs)) + Tails(vs));
  }

  lemma CertAt(j: VerifierJournal, i: nat)
    requires i < |j.certs|
    ensures Holds(EncodeJournal(j), 32 + JournalOffset(j, 3) + 32 + 32 * i, j.certs[i])
  {
    hide Holds, JournalOffset, EncodeJournal;
    MultipleOfWords(i);
    assert Encode(VFixed(j.certs[i])) == j.certs[i];
    ElementAt(j, 3, CertsToAbi(j.certs), 32, i);
  }

  lemma ExpiryAt(j: VerifierJournal, i: nat)
    requires i < |j.certExpiries|
    ensures Holds(EncodeJournal(j), 32 + JournalOffset(j, 4) + 32 + 32 * i, Word(j.certExpiries[i]))
  {
    hide Holds, JournalOffset, EncodeJournal;
    MultipleOfWords(i);
    ElementAt(j, 4, ExpiriesToAbi(j.certExpiries), 32, i);
  }

  lemma PcrAt(j: VerifierJournal, i: nat)
    requires i < |j.pcrs|
    ensures Holds(EncodeJournal(j), 32 + JournalOffset(j, 8) + 32 + 96 * i, PcrBytes(j.pcrs[i]))
  {
    hide Holds, JournalOffset, EncodeJournal, Encode, Share, Dynamic, PcrToAbi, PcrBytes;
    MultipleOfWords(i);
    forall k | 0 <= k < |j.pcrs|
      ensures !Dynamic(PcrsToAbi(j.pcrs)[k]) && Share(PcrsToAbi(j.pcrs)[k]) == 96
    {
      PcrShare(j.pcrs[k]);
    }
    PcrEncoding(j.pcrs[i]);
    ElementAt(j, 8, PcrsToAbi(j.pcrs), 96, i);
  }

  /**
   * The arrays of a journal stand in the public values at their offsets: the number of elements, then the elements.
   * A PCR is its index, the first 32 bytes of its value, and the last 16 followed by zeros.
   */
  lemma JournalElements(j: VerifierJournal, i: nat)
    ensures var e := EncodeJournal(j);
            && Holds(e, 32 + JournalOffset(j, 3), Word(|j.certs|))
            && Holds(e, 32 + JournalOffset(j, 4), Word(|j.certExpiries|))
            && Holds(e, 32 + JournalOffset(j, 8), Word(|j.pcrs|))
            && (i < |j.certs| ==> Holds(e, 32 + JournalOffset(j, 3) + 32 + 32 * i, j.certs[i]))
            && (i < |j.certExpiries| ==> Holds(e, 32 + JournalOffset(j, 4) + 32 + 32 * i, Word(j.certExpiries[i])))
            && (i < |j.pcrs| ==>
                  Holds(e, 32 + JournalOffset(j, 8) + 32 + 96 * i,
                        Word(j.pcrs[i].index)
                        + (j.pcrs[i].value.first + (j.pcrs[i].value.second + Zeros(16)))))
  {
    hide Holds, EncodeJournal, Encode, JournalOffset, Word;
    CountAt(j, 3, CertsToAbi(j.certs));
    CountAt(j, 4, ExpiriesToAbi(j.certExpiries));
    CountAt(j, 8, PcrsToAbi(j.pcrs));
    if i < |j.certs| {
      CertAt(j, i);
    }
    if i < |j.certExpiries| {
      ExpiryAt(j, i);
    }
    if i < |j.pcrs| {
      PcrAt(j, i);
    }
  }

  /** Where the contents of each dynamic field start: after the heads, one after another. */
  lemma JournalOffsets(j: VerifierJournal)
    ensures JournalOffset(j, 3) == 320
    ensures JournalOffset(j, 4) == JournalOffset(j, 3) + 32 + 32 * |j.certs|
    ensures JournalOffset(j, 5) == JournalOffset(j, 4) + 32 + 32 * |j.certExpiries|
    ensures JournalOffset(j, 6) == JournalOffset(j, 5) + 32 + PadTo32(|j.userData|)
    ensures JournalOffset(j, 7) == JournalOffset(j, 6) + 32 + PadTo32(|j.nonce|)
    ensures JournalOffset(j, 8) == JournalOffset(j, 7) + 32 + PadTo32(|j.publicKey|)
    ensures JournalOffset(j, 9) == JournalOffset(j, 8) + 32 + 96 * |j.pcrs|
    ensures JournalOffset(j, 10) == JournalOffset(j, 9) + 32 + PadTo32(|j.moduleId|)
  {
    var ns := JournalTailLengths(j);
    assert SumTo(ns, 3) == 0;
    assert SumTo(ns, 4) == SumTo(ns, 3) + ns[3] && SumTo(ns, 5) == SumTo(ns, 4) + ns[4];
    assert SumTo(ns, 6) == SumTo(ns, 5) + ns[5] && SumTo(ns, 7) == SumTo(ns, 6) + ns[6];
    assert SumTo(ns, 8) == SumTo(ns, 7) + ns[7] && SumTo(ns, 9) == SumTo(ns, 8) + ns[8];
    assert SumTo(ns, 10) == SumTo(ns, 9) + ns[9];
  }

  /** The length of the public values is exactly the closed form. */
  lemma JournalLengthExact(j: VerifierJournal)
    ensures |EncodeJournal(j)| == JournalLength(j)
  {
    JournalTails(j);
    MeasuredLength(JournalItems(j), JournalTailLengths(j));
    JournalOffsets(j);
    OuterLength(j);
  }

  /** The public values are a whole number of words. */
  lemma JournalIsAligned(j: VerifierJournal)
    ensures |EncodeJournal(j)| % 32 == 0
  {
    JournalHasType(j);
    EncodeIsAligned(JournalToAbi(j), JOURNAL_TYPE);
    OuterLength(j);
    SumAligned(32, |Encode(JournalToAbi(j))|);
  }

  lemma InputLengthExact(i: VerifierInput)
    ensures |EncodeInput(i)| == 128 + PadTo32(|i.attestationReport|)
  {
    hide EncodeInput;
    InputBytes(i);
  }

  lemma OuterLength(j: VerifierJournal)
    ensures |EncodeJournal(j)| == 32 + |Encode(JournalToAbi(j))|
  {
    hide EncodeJournal, Encode;
    PublicValues(j);
  }

  /** The shape of the journal recorded in the repository's proof artifact. */
  predicate HasRecordedShape(j: VerifierJournal) {
    && |j.certs| == 5 && |j.certExpiries| == 5
    && |j.userData| == 0 && |j.nonce| == 0 && |j.publicKey| == 65
    && |j.pcrs| == 16
    && |j.moduleId| == 39
  }

  /** The public values of every journal of that shape have the recorded length, first word and seven offsets. */
  lemma RecordedOffsets(j: VerifierJournal)
    requires HasRecordedShape(j)
    ensures var e := EncodeJournal(j);
            && |e| == 2592
            && Holds(e, 0, Word(0x20))
            && Holds(e, 128, Word(0x140)) && Holds(e, 160, Word(0x200)) && Holds(e, 192, Word(0x2c0))
            && Holds(e, 224, Word(0x2e0)) && Holds(e, 256, Word(0x300)) && Holds(e, 288, Word(0x380))
            && Holds(e, 320, Word(0x9a0))
  {
    hide Holds, EncodeJournal, Encode, JournalOffset, JournalItems, Word;
    JournalOffsets(j);
    JournalLengthExact(j);
    forall i | 3 <= i < 10
      ensures Holds(EncodeJournal(j), 0, Word(32))
      ensures Holds(EncodeJournal(j), 32 + 32 * i, Word(JournalOffset(j, i)))
    {
      JournalLayout(j, i);
    }
    assert Holds(EncodeJournal(j), 32 + 32 * 3, Word(JournalOffset(j, 3)));
  }

  // ----- Inputs and batches, byte by byte -----

  /** An encoded input: the offset of the tuple, the prefix, the offset of the report, and the report. */
  lemma InputBytes(i: VerifierInput)
    ensures var n := |i.attestationReport|;
            EncodeInput(i)
            == Word(32) + (Word(i.trustedCertsPrefixLen) + (Word(64)
               + (Word(n) + (i.attestationReport + Zeros(PadTo32(n) - n)))))
  {
    var v := VBytes(i.attestationReport);
    StringEncoding(i.attestationReport);
    StaticThenDynamic(VUint(i.trustedCertsPrefixLen), v);
    OneDynamicParameter(InputToAbi(i));
  }

  lemma TwoComponents(a: Value, b: Value, offset: nat)
    ensures HeadsLength([a, b]) == HeadSize(a) + HeadSize(b)
    ensures Heads([a, b], offset) == HeadOf(a, offset) + HeadOf(b, offset + |TailOf(a)|)
    ensures Tails([a, b]) == TailOf(a) + TailOf(b)
    ensures AnyDynamic([a, b]) <==> Dynamic(a) || Dynamic(b)
  {
    hide Encode, HeadOf, TailOf, HeadSize, Dynamic;
    assert [a, b][1..] == [b] && [b][1..] == [];
    OneComponent(b, offset + |TailOf(a)|);
    assert AnyDynamic([b]) <==> Dynamic(b);
  }

  /** A tuple of a one-word static value and a dynamic one. */
  lemma StaticThenDynamic(a: Value, v: Value)
    requires !Dynamic(a) && |Encode(a)| == 32 && Dynamic(v)
    ensures Dynamic(VTuple([a, v]))
    ensures Encode(VTuple([a, v])) == Encode(a) + (Word(64) + Encode(v))
  {
    TwoComponents(a, v, 64);
    TupleOfTwo(a, v);
    hide Encode;
    DynamicParts(v, 64);
    assert HeadOf(a, 64) == Encode(a) && TailOf(a) == [] && HeadSize(a) == 32 && HeadSize(v) == 32;
  }

  lemma TupleOfTwo(a: Value, b: Value)
    ensures Encode(VTuple([a, b])) == Heads([a, b], HeadsLength([a, b])) + Tails([a, b])
    ensures Dynamic(VTuple([a, b])) == AnyDynamic([a, b])
  {
    hide Heads, Tails, HeadsLength, AnyDynamic;
  }

  /** An encoded batch: the offset of the tuple, the key, the offset of the array, and the array with its length. */
  lemma BatchBytes(b: BatchVerifierJournal)
    ensures EncodeBatch(b)
            == Word(32) + (b.verifierVk + (Word(64)
               + (Word(|b.outputs|) + Encode(VTuple(JournalsToAbi(b.outputs))))))
  {
    var vs := JournalsToAbi(b.outputs);
    assert Encode(VFixed(b.verifierVk)) == b.verifierVk;
    StaticThenDynamic(VFixed(b.verifierVk), VArray(vs));
    OneDynamicParameter(BatchToAbi(b));
  }

  /** Lengths of the encoded outputs, each without the word that precedes it on its own. */
  function OutputLengths(js: seq<VerifierJournal>): (ns: seq<nat>)
    ensures |ns| == |js|
    ensures forall k :: 0 <= k < |js| ==> ns[k] == |EncodeJournal(js[k])| - 32
  {
    seq(|js|, k requires 0 <= k < |js| => OutputLength(js[k]))
  }

  function OutputLength(j: VerifierJournal): (n: nat)
    ensures n == |EncodeJournal(j)| - 32
  {
    OuterLength(j);
    |EncodeJournal(j)| - 32
  }

  lemma OutputsMeasured(js: seq<VerifierJournal>)
    ensures Measured(JournalsToAbi(js), OutputLengths(js))
    ensures forall k :: 0 <= k < |js| ==> Dynamic(JournalsToAbi(js)[k])
  {
    hide EncodeJournal, JournalItems;
    forall k | 0 <= k < |js|
      ensures Dynamic(JournalsToAbi(js)[k]) && |Encode(JournalsToAbi(js)[k])| == OutputLengths(js)[k]
    {
      JournalDynamic(js[k], 3);
      AnyDynamicAt(JournalItems(js[k]), 3);
      OuterLength(js[k]);
    }
  }

  /**
   * Output `k` of an encoded batch: its head holds the running sum of the heads and the outputs before it, and what
   * stands there is the output's own encoding without the word in front.
   */
  lemma BatchLayout(b: BatchVerifierJournal, k: nat)
    requires k < |b.outputs|
    ensures var e, n := EncodeBatch(b), |b.outputs|;
            var offset := 32 * n + SumTo(OutputLengths(b.outputs), k);
            && |e| == 128 + 32 * n + SumTo(OutputLengths(b.outputs), n)
            && Holds(e, 0, Word(32)) && Holds(e, 32, b.verifierVk) && Holds(e, 64, Word(64)) && Holds(e, 96, Word(n))
            && Holds(e, 128 + 32 * k, Word(offset))
            && |EncodeJournal(b.outputs[k])| >= 32
            && Holds(e, 128 + offset, EncodeJournal(b.outputs[k])[32..])
  {
    hide *;
    var vs, n := JournalsToAbi(b.outputs), |b.outputs|;
    var offset := 32 * n + SumTo(OutputLengths(b.outputs), k);
    var items := Encode(VTuple(vs));
    OutputItems(b.outputs, k);
    BatchBytes(b);
    BatchParts(EncodeBatch(b), Word(32), b.verifierVk, Word(64), Word(n), items);
    HoldsWithin(EncodeBatch(b), 128, items, 32 * k, Word(offset));
    HoldsWithin(EncodeBatch(b), 128, items, offset, EncodeJournal(b.outputs[k])[32..]);
  }

  lemma OutputItems(js: seq<VerifierJournal>, k: nat)
    requires k < |js|
    ensures var items, n := Encode(VTuple(JournalsToAbi(js))), |js|;
            var offset := 32 * n + SumTo(OutputLengths(js), k);
            && |items| == 32 * n + SumTo(OutputLengths(js), n)
            && Holds(items, 32 * k, Word(offset))
            && |EncodeJournal(js[k])| >= 32
            && Holds(items, offset, EncodeJournal(js[k])[32..])
  {
    hide EncodeJournal, Encode, Word, JournalItems, SumTo, Holds;
    OutputsMeasured(js);
    TupleLayout(JournalsToAbi(js), OutputLengths(js), k);
    MeasuredLength(JournalsToAbi(js), OutputLengths(js));
    PublicValues(js[k]);
    assert EncodeJournal(js[k])[32..] == Encode(JournalToAbi(js[k]));
  }

  /** Four words and a rest. */
  lemma BatchParts(e: seq<byte>, a: B256, b: B256, c: B256, d: B256, rest: seq<byte>)
    requires e == a + (b + (c + (d + rest)))
    ensures |e| == 128 + |rest|
    ensures Holds(e, 0, a) && Holds(e, 32, b) && Holds(e, 64, c) && Holds(e, 96, d) && Holds(e, 128, rest)
  {
    assert e[32..] == b + (c + (d + rest)) && e[64..] == c + (d + rest) && e[96..] == d + rest && e[128..] == rest;
  }

  // ----- Decoding, word by word -----

  /** The only parameter of decoded bytes is decoded where the first word points. */
  lemma ParameterWord(t: Type, buf: seq<byte>)
    requires DynamicType(t) && DecodeParameter(t, buf).Some?
    ensures |buf| >= 32 && FromBigEndian(buf[..32]) <= |buf|
    ensures Decode(t, buf[FromBigEndian(buf[..32])..]) == DecodeParameter(t, buf)
  {
    hide FromBigEndian, HasType;
    assert [t][1..] == [];
    assert DecodeAll([t], buf, 0).Some?;
  }

  /** A static field of one word is decoded in place. */
  lemma FieldWord(ts: seq<Type>, buf: seq<byte>, at: nat, limit: nat)
    requires ts != [] && ts[0] == TUint(limit)
    requires DecodeAll(ts, buf, at).Some?
    ensures |buf| >= at + 32
    ensures DecodeAll(ts, buf, at).value != []
    ensures DecodeAll(ts, buf, at).value[0] == VUint(FromBigEndian(buf[at..at + 32]))
    ensures FromBigEndian(buf[at..at + 32]) < limit
    ensures DecodeAll(ts[1..], buf, at + 32).Some?
    ensures DecodeAll(ts, buf, at).value[1..] == DecodeAll(ts[1..], buf, at + 32).value
  {
    hide FromBigEndian;
    assert buf[at..][0..32] == buf[at..at + 32];
  }

  lemma TupleWords(t: seq<byte>)
    requires Decode(JOURNAL_TYPE, t).Some?
    ensures |t| >= 96
    ensures var v := Decode(JOURNAL_TYPE, t).value;
            && v.VTuple? && |v.items| >= 3
            && v.items[0] == VUint(FromBigEndian(t[0..32])) && FromBigEndian(t[0..32]) < 5
            && v.items[1] == VUint(FromBigEndian(t[32..64])) && FromBigEndian(t[32..64]) < 0x100
            && v.items[2] == VUint(FromBigEndian(t[64..96])) && FromBigEndian(t[64..96]) < 0x1_0000_0000_0000_0000
  {
    hide FromBigEndian;
    var ts, vs := JOURNAL_FIELDS, Decode(JOURNAL_TYPE, t).value.items;
    assert DecodeAll(ts, t, 0) == Some(vs);
    hide DecodeAll;
    FieldWord(ts, t, 0, 5);
    FieldWord(ts[1..], t, 32, 0x100);
    FieldWord(ts[1..][1..], t, 64, TWO_TO_64);
  }

  /**
   * The scalars of decoded bytes are the first words of the tuple, wherever it is; a result, a prefix or a time that
   * is out of range is rejected.
   */
  lemma DecodedScalars(buf: seq<byte>)
    requires DecodeJournal(buf).Ok?
    ensures |buf| >= 32
    ensures var at, j := FromBigEndian(buf[..32]), DecodeJournal(buf).value;
            && at + 96 <= |buf|
            && FromBigEndian(buf[at..at + 32]) == ResultCode(j.result) < 5
            && FromBigEndian(buf[at + 32..at + 64]) == j.trustedCertsPrefixLen < 0x100
            && FromBigEndian(buf[at + 64..at + 96]) == j.timestamp < 0x1_0000_0000_0000_0000
  {
    hide FromBigEndian, HasType, Decode, DecodeParameter;
    JournalIsDynamic();
    ParameterWord(JOURNAL_TYPE, buf);
    var at := FromBigEndian(buf[..32]);
    var t := buf[at..];
    TupleWords(t);
    assert t[0..32] == buf[at..at + 32] && t[32..64] == buf[at + 32..at + 64] && t[64..96] == buf[at + 64..at + 96];
  }

  lemma JournalIsDynamic()
    ensures DynamicType(JOURNAL_TYPE)
  {
    AnyDynamicTypeAt(JOURNAL_FIELDS, 3);
  }
}
