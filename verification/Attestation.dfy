/** The attestation document and report, and the content rules a document must meet. */
module Attestation {
  import opened Basics
  import opened Errors
  import opened Utf8
  import opened Journal
  import Cose

  datatype AttestationDocument = AttestationDocument(
    moduleId: Utf8String,
    timestamp: u64,
    digest: Utf8String,
    pcrs: map<u64, Measurement>,
    certificate: seq<byte>,
    cabundle: seq<seq<byte>>,
    publicKey: Option<seq<byte>>,
    userData: Option<seq<byte>>,
    nonce: Option<seq<byte>>
  )

  /** The document decoder, kept as an arbitrary partial function of the payload. */
  type DocParser = seq<byte> -> Option<AttestationDocument>

  datatype AttestationReport = AttestationReport(cose: Cose.CoseSign1, doc: AttestationDocument)

  function ParseReport(parser: DocParser, data: seq<byte>): Result<AttestationReport, VerifierError> {
    var cose :- Cose.ParseCose(data);
    match parser(cose.payload)
    case None => Err(AttestationFormat)
    case Some(doc) => Ok(AttestationReport(cose, doc))
  }

  /** The chain in order: CA bundle from the root on, then the enclave's own certificate. */
  function CertChainDer(doc: AttestationDocument): (ders: seq<seq<byte>>)
    ensures |ders| == |doc.cabundle| + 1
  {
    doc.cabundle + [doc.certificate]
  }

  // ----- PCRs in the order of their indices -----

  predicate IsLeast(m: u64, s: set<u64>) {
    m in s && forall x | x in s :: m <= x
  }

  lemma {:induction false} LeastExists(s: set<u64>)
    requires s != {}
    ensures exists m :: IsLeast(m, s)
  {
    var x :| x in s;
    var others := s - {x};
    var least := x;
    if others != {} {
      LeastExists(others);
      var m :| IsLeast(m, others);
      least := if m < x then m else x;
    }
    forall y | y in s
      ensures least <= y
    {
      assert y == x || y in others;
    }
    assert IsLeast(least, s);
  }

  function Least(s: set<u64>): (m: u64)
    requires s != {}
    ensures IsLeast(m, s)
  {
    LeastExists(s);
    var m :| m in s && IsLeast(m, s);
    m
  }

  predicate StrictlyAscending(ks: seq<u64>) {
    forall i, j :: 0 <= i < j < |ks| ==> ks[i] < ks[j]
  }

  lemma LeastFirst(s: set<u64>, m: u64, others: seq<u64>)
    requires IsLeast(m, s)
    requires forall k :: k in others <==> k in s - {m}
    requires StrictlyAscending(others)
    ensures forall k :: k in [m] + others <==> k in s
    ensures StrictlyAscending([m] + others)
  {
    var ks := [m] + others;
    forall i, j | 0 <= i < j < |ks|
      ensures ks[i] < ks[j]
    {
      assert ks[j] == others[j - 1] && ks[j] in others;
      assert i > 0 ==> ks[i] == others[i - 1];
    }
  }

  /** The iteration order of an ordered map. */
  function AscendingKeys(s: set<u64>): (ks: seq<u64>)
    ensures |ks| == |s|
    ensures forall k :: k in ks <==> k in s
    ensures StrictlyAscending(ks)
  {
    if s == {} then []
    else
      var m := Least(s);
      var others := AscendingKeys(s - {m});
      LeastFirst(s, m, others);
      [m] + others
  }

  function PcrEntries(pcrs: map<u64, Measurement>): (ps: seq<Pcr>)
    ensures |ps| == |pcrs|
  {
    var ks := AscendingKeys(pcrs.Keys);
    seq(|ks|, i requires 0 <= i < |ks| => Pcr(ks[i], Bytes48.From(pcrs[ks[i]])))
  }

  /** The journal's PCR list is the document's map: same indices in strictly ascending order, same measurements. */
  lemma PcrEntriesExact(pcrs: map<u64, Measurement>)
    ensures var ps := PcrEntries(pcrs);
            && (forall i, j :: 0 <= i < j < |ps| ==> ps[i].index < ps[j].index)
            && (forall k :: k in pcrs <==> exists i :: 0 <= i < |ps| && ps[i].index == k)
            && (forall i :: 0 <= i < |ps| ==>
                              && ps[i].index in pcrs
                              && ps[i].value.first == pcrs[ps[i].index][..32]
                              && ps[i].value.second == pcrs[ps[i].index][32..])
  {
    var ks, ps := AscendingKeys(pcrs.Keys), PcrEntries(pcrs);
    forall i | 0 <= i < |ps|
      ensures ps[i].index == ks[i] && ks[i] in pcrs && ps[i].value == Bytes48.From(pcrs[ks[i]])
    {
      assert ks[i] in ks;
    }
    forall k | k in pcrs
      ensures exists i :: 0 <= i < |ps| && ps[i].index == k
    {
      assert k in ks;
      var i :| 0 <= i < |ks| && ks[i] == k;
      assert ps[i].index == k;
    }
  }

  /** Indices up to 31 leave room for at most 32 PCRs. */
  lemma FewSmallIndices(s: set<u64>)
    requires forall k :: k in s ==> k <= 31
    ensures |s| <= 32
  {
    var ks := AscendingKeys(s);
    if |ks| > 0 {
      AscendingGrows(ks, |ks| - 1);
      assert ks[|ks| - 1] in s;
    }
  }

  lemma {:induction false} AscendingGrows(ks: seq<u64>, i: nat)
    requires StrictlyAscending(ks) && i < |ks|
    ensures ks[i] >= i
  {
    if i > 0 {
      AscendingGrows(ks, i - 1);
    }
  }

  // ----- Content rules -----

  /** "SHA384" */
  const SHA384: seq<byte> := [0x53, 0x48, 0x41, 0x33, 0x38, 0x34]

  predicate AllZero(m: Measurement) {
    forall i :: 0 <= i < 48 ==> m[i] == 0
  }

  predicate IndicesInRange(pcrs: map<u64, Measurement>) {
    forall k | k in pcrs :: k <= 31
  }

  predicate SomeNonZero(pcrs: map<u64, Measurement>) {
    exists k | k in pcrs :: !AllZero(pcrs[k])
  }

  predicate OptionalLength(field: Option<seq<byte>>, least: nat, most: nat) {
    field.Some? ==> least <= |field.value| <= most
  }

  /** What a document must satisfy; that there are at most 32 PCRs follows. */
  predicate ContentOk(doc: AttestationDocument) {
    && doc.moduleId != []
    && doc.timestamp != 0
    && doc.digest == SHA384
    && doc.cabundle != []
    && IndicesInRange(doc.pcrs)
    && SomeNonZero(doc.pcrs)
    && OptionalLength(doc.publicKey, 1, 1024)
    && OptionalLength(doc.userData, 0, 512)
    && OptionalLength(doc.nonce, 0, 512)
  }

  function ContentRank(c: ContentCheck): nat {
    match c
    case ModuleIdEmpty => 0
    case TimestampZero => 1
    case DigestNotSha384 => 2
    case CabundleEmpty => 3
    case PcrCount => 4
    case PcrIndex => 5
    case PcrsAllZero => 6
    case PublicKeyLength => 7
    case UserDataLength => 8
    case NonceLength => 9
  }

  predicate RulePasses(doc: AttestationDocument, c: ContentCheck) {
    match c
    case ModuleIdEmpty => doc.moduleId != []
    case TimestampZero => doc.timestamp != 0
    case DigestNotSha384 => doc.digest == SHA384
    case CabundleEmpty => doc.cabundle != []
    case PcrCount => 1 <= |doc.pcrs| <= 32
    case PcrIndex => IndicesInRange(doc.pcrs)
    case PcrsAllZero => SomeNonZero(doc.pcrs)
    case PublicKeyLength => OptionalLength(doc.publicKey, 1, 1024)
    case UserDataLength => OptionalLength(doc.userData, 0, 512)
    case NonceLength => OptionalLength(doc.nonce, 0, 512)
  }

  /** `validate_attestation_content`: the first rule that is broken. */
  function ContentFault(doc: AttestationDocument): Option<ContentCheck> {
    if |doc.moduleId| == 0 then Some(ModuleIdEmpty)
    else if doc.timestamp == 0 then Some(TimestampZero)
    else if doc.digest != SHA384 then Some(DigestNotSha384)
    else if |doc.cabundle| == 0 then Some(CabundleEmpty)
    else if |doc.pcrs| == 0 || |doc.pcrs| > 32 then Some(PcrCount)
    else if !IndicesInRange(doc.pcrs) then Some(PcrIndex)
    else if !SomeNonZero(doc.pcrs) then Some(PcrsAllZero)
    else if doc.publicKey.Some? && (|doc.publicKey.value| == 0 || |doc.publicKey.value| > 1024) then
      Some(PublicKeyLength)
    else if doc.userData.Some? && |doc.userData.value| > 512 then Some(UserDataLength)
    else if doc.nonce.Some? && |doc.nonce.value| > 512 then Some(NonceLength)
    else None
  }

  lemma PcrCountFollows(doc: AttestationDocument)
    requires IndicesInRange(doc.pcrs) && SomeNonZero(doc.pcrs)
    ensures 1 <= |doc.pcrs| <= 32
  {
    FewSmallIndices(doc.pcrs.Keys);
    var k :| k in doc.pcrs && !AllZero(doc.pcrs[k]);
    assert k in doc.pcrs.Keys;
  }

  /** Exactly the documents that meet the rules pass. */
  lemma ContentFaultExact(doc: AttestationDocument)
    ensures ContentFault(doc).None? <==> ContentOk(doc)
  {
    if IndicesInRange(doc.pcrs) && SomeNonZero(doc.pcrs) {
      PcrCountFollows(doc);
    }
  }

  /** A rejection names the first rule, in the order of the code, that the document breaks. */
  lemma ContentFaultIsFirst(doc: AttestationDocument, c: ContentCheck)
    requires ContentFault(doc).Some?
    ensures !RulePasses(doc, ContentFault(doc).value)
    ensures ContentRank(c) < ContentRank(ContentFault(doc).value) ==> RulePasses(doc, c)
  {
    hide IsUtf8, IndicesInRange, SomeNonZero;
  }

  // ----- The rules, in the fields of the document -----

  /**
   * Exactly these documents pass. That there are at most 32 PCRs need not be asked: their indices are distinct and
   * at most 31. One non-zero byte in one PCR is enough.
   */
  lemma ContentInFields(doc: AttestationDocument)
    ensures ContentFault(doc).None?
            <==>
            && |doc.moduleId| > 0
            && doc.timestamp > 0
            && (|doc.digest| == 6 && forall i :: 0 <= i < 6 ==> doc.digest[i] == "SHA384"[i] as int)
            && |doc.cabundle| >= 1
            && (forall k :: k in doc.pcrs ==> k <= 31)
            && (exists k, i :: k in doc.pcrs && 0 <= i < 48 && doc.pcrs[k][i] != 0)
            && (doc.publicKey.Some? ==> 1 <= |doc.publicKey.value| <= 1024)
            && (doc.userData.Some? ==> |doc.userData.value| <= 512)
            && (doc.nonce.Some? ==> |doc.nonce.value| <= 512)
  {
    hide ContentFault;
    ContentFaultExact(doc);
    DigestName(doc.digest);
    NonZeroByte(doc.pcrs);
  }

  lemma DigestName(digest: seq<byte>)
    ensures digest == SHA384 <==> |digest| == 6 && forall i :: 0 <= i < 6 ==> digest[i] == "SHA384"[i] as int
  {
    var name := "SHA384";
    assert SHA384 == [name[0] as int, name[1] as int, name[2] as int, name[3] as int, name[4] as int, name[5] as int];
  }

  lemma NonZeroByte(pcrs: map<u64, Measurement>)
    ensures SomeNonZero(pcrs) <==> exists k, i :: k in pcrs && 0 <= i < 48 && pcrs[k][i] != 0
  {
    if SomeNonZero(pcrs) {
      var k :| k in pcrs && !AllZero(pcrs[k]);
      var i :| 0 <= i < 48 && pcrs[k][i] != 0;
    }
    if k, i :| k in pcrs && 0 <= i < 48 && pcrs[k][i] != 0 {
      assert !AllZero(pcrs[k]);
    }
  }

  /** What is reported for a document that does not pass: the first of these that is wrong. */
  lemma ContentOutcome(doc: AttestationDocument)
    ensures ContentFault(doc)
            == if |doc.moduleId| == 0 then Some(ModuleIdEmpty)
               else if doc.timestamp == 0 then Some(TimestampZero)
               else if !(|doc.digest| == 6 && forall i :: 0 <= i < 6 ==> doc.digest[i] == "SHA384"[i] as int) then
                 Some(DigestNotSha384)
               else if |doc.cabundle| == 0 then Some(CabundleEmpty)
               else if !(1 <= |doc.pcrs| <= 32) then Some(PcrCount)
               else if exists k :: k in doc.pcrs && k > 31 then Some(PcrIndex)
               else if forall k, i :: k in doc.pcrs && 0 <= i < 48 ==> doc.pcrs[k][i] == 0 then Some(PcrsAllZero)
               else if doc.publicKey.Some? && !(1 <= |doc.publicKey.value| <= 1024) then Some(PublicKeyLength)
               else if doc.userData.Some? && |doc.userData.value| > 512 then Some(UserDataLength)
               else if doc.nonce.Some? && |doc.nonce.value| > 512 then Some(NonceLength)
               else None
  {
    hide SomeNonZero, IsUtf8;
    DigestName(doc.digest);
    NonZeroByte(doc.pcrs);
  }
}
