/**
 The packed form of an encrypted message: a 32-byte key, a 12-byte nonce, and the
 ciphertext. The fingerprint and the signature of the sender are not packed.
 */
module Envelope {
  import opened ByteNumbers
  import opened Options

  const KEY_SIZE := 32
  const NONCE_SIZE := 12

  datatype Payload = Payload(
    ephemeralPubKey: seq<byte>,
    nonce: seq<byte>,
    ciphertext: seq<byte>,
    senderFingerprint: string,
    signature: seq<byte>)

  function Marshal(p: Payload): seq<byte> {
    p.ephemeralPubKey + p.nonce + p.ciphertext
  }

  function Unmarshal(data: seq<byte>): Option<Payload> {
    if |data| < KEY_SIZE + NONCE_SIZE then None
    else Some(Payload(data[..KEY_SIZE], data[KEY_SIZE..KEY_SIZE + NONCE_SIZE], data[KEY_SIZE + NONCE_SIZE..], "", []))
  }

  predicate Sized(p: Payload) {
    |p.ephemeralPubKey| == 32 && |p.nonce| == 12
  }

  /** What the packing drops. */
  function Bare(p: Payload): Payload {
    p.(senderFingerprint := "", signature := [])
  }

  lemma RoundTripIff(p: Payload)
    ensures Unmarshal(Marshal(p)) == Some(Bare(p)) <==> Sized(p)
  {
    var data := Marshal(p);
    if Sized(p) {
      assert data[..KEY_SIZE] == p.ephemeralPubKey;
      assert data[KEY_SIZE..KEY_SIZE + NONCE_SIZE] == p.nonce;
      assert data[KEY_SIZE + NONCE_SIZE..] == p.ciphertext;
    }
  }

  /** Every string that is long enough is the packing of what is read from it,
      and of no other sized payload. */
  lemma ReadBack(data: seq<byte>, p: Payload)
    requires Sized(p)
    ensures Unmarshal(data) == Some(Bare(p)) <==> data == Marshal(p)
  {
    RoundTripIff(p);
    if Unmarshal(data) == Some(Bare(p)) {
      assert data == data[..KEY_SIZE] + data[KEY_SIZE..KEY_SIZE + NONCE_SIZE] + data[KEY_SIZE + NONCE_SIZE..];
    }
  }
}
