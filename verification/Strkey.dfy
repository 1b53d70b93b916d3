/** Stellar strkeys. Base-32 decoding and checksums belong to the Stellar SDK, so a
    codec is a parameter, held only to the two facts SEP-23 gives about it. */
module Strkey {
  import opened Wrappers
  import opened Codecs

  datatype Version = AccountId | Contract

  datatype Codec = Codec(decode: (Version, string) -> Option<seq<Byte>>)

  predicate Base32(c: char) { 'A' <= c <= 'Z' || '2' <= c <= '7' }

  /** Strkeys are spelled in upper-case base 32, and one strkey has one version byte. */
  ghost predicate Lawful(codec: Codec) {
    && (forall v, s, i :: codec.decode(v, s).Some? && 0 <= i < |s| ==> Base32(s[i]))
    && (forall s :: !(codec.decode(AccountId, s).Some? && codec.decode(Contract, s).Some?))
  }

  predicate Decodes(codec: Codec, v: Version, s: string) {
    codec.decode(v, s).Some?
  }

  /** validateStrKey: the payload must also be 32 bytes long. */
  predicate ValidKey(codec: Codec, v: Version, s: string) {
    Decodes(codec, v, s) && |codec.decode(v, s).value| == 32
  }
}
