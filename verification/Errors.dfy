/** The error values of the verifier crate, with message text replaced by tags. */
module Errors {
  datatype CborFault = UnexpectedEnd | Syntax | Unsupported | InvalidUtf8 | RecursionLimit | TooLong

  datatype CoseFault = TaggedNotArray | NotArrayOrTag | WrongLength(found: nat) | NotBytes(element: nat)

  datatype ParseFault = EmptyChain | MalformedDer(at: nat) | TrailingData(at: nat)

  /** What can be wrong with one certificate, listed in the order the checks run. */
  datatype Check =
    | NotAfterNegative
    | SelfIssued
    | SignatureAlgorithm
    | KeyAlgorithm
    | CurveMissing
    | CurveUnsupported
    | BasicConstraintsParse
    | KeyUsageParse
    | LeafIsCa
    | LeafLacksDigitalSignature
    | CaLacksBasicConstraints
    | CaFlagFalse
    | CaLacksKeyUsage
    | CaLacksKeyCertSign
    | NotYetValid
    | Expired
    | IssuerMismatch
    | ParentConstraintsParse
    | PathLength
    | ParentKey
    | SignatureEncoding
    | SignatureInvalid

  datatype ChainFault = PrefixTooLong | NoCertificates | At(index: nat, check: Check)

  /** What can be wrong with an attestation document, listed in the order the checks run. */
  datatype ContentCheck =
    | ModuleIdEmpty
    | TimestampZero
    | DigestNotSha384
    | CabundleEmpty
    | PcrCount
    | PcrIndex
    | PcrsAllZero
    | PublicKeyLength
    | UserDataLength
    | NonceLength

  datatype CoseSignatureFault = BadLeafKey | BadCoseSignature | CoseSignatureRejected

  datatype VerifierError =
    | Cbor(cbor: CborFault)
    | CoseFormat(cose: CoseFault)
    | AttestationFormat
    | X509Parse(parse: ParseFault)
    | CertificateVerification(chain: ChainFault)
    | CertificateSignature(chain: ChainFault)
    | CoseSignature(signature: CoseSignatureFault)
    | ContentValidation(content: ContentCheck)

  /** The variant that a failed certificate check is reported under. */
  function CheckError(i: nat, c: Check): VerifierError {
    if c in {ParentKey, SignatureEncoding, SignatureInvalid}
    then CertificateSignature(At(i, c))
    else CertificateVerification(At(i, c))
  }
}
