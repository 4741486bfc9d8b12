/** The cryptographic primitives the verifier calls, kept as arbitrary functions. */
module Crypto {
  import opened Basics
  import PathDigest

  /** A decoded P-384 public key. */
  datatype Key = Key(point: seq<byte>)

  /** A decoded ECDSA signature. */
  datatype Signature = Signature(scalars: seq<byte>)

  datatype Primitives = Primitives(
    sha256: PathDigest.Hash,
    decodeKey: seq<byte> -> Option<Key>,
    decodeDerSignature: seq<byte> -> Option<Signature>,
    decodeRawSignature: seq<byte> -> Option<Signature>,
    ecdsaVerify: (Key, seq<byte>, Signature) -> bool
  )

  /** `signature`, in DER form, is valid for `message` under the encoded public key. */
  predicate SignsDer(p: Primitives, publicKey: seq<byte>, message: seq<byte>, signature: seq<byte>) {
    && p.decodeKey(publicKey).Some?
    && p.decodeDerSignature(signature).Some?
    && p.ecdsaVerify(p.decodeKey(publicKey).value, message, p.decodeDerSignature(signature).value)
  }

  /** The same for the fixed-width form that COSE uses. */
  predicate SignsRaw(p: Primitives, publicKey: seq<byte>, message: seq<byte>, signature: seq<byte>) {
    && p.decodeKey(publicKey).Some?
    && p.decodeRawSignature(signature).Some?
    && p.ecdsaVerify(p.decodeKey(publicKey).value, message, p.decodeRawSignature(signature).value)
  }
}
