/** The cryptographic library as functions. Only the laws stated here are ever used. */
module Primitives {
  import opened Common
  import Utf8

  const KEY_SIZE := 32
  const IV_SIZE := 12
  const TAG_SIZE := 16

  datatype Primitives = Primitives(
    publicPem: string -> string,                        // ECDSA private key -> public key
    loads: string -> bool,                              // is this text a readable public key?
    sign: (string, string, nat) -> Bytes,               // private key, text, random choice
    verify: (string, string, Bytes) -> bool,            // public key, text, signature
    seal: (Bytes, Bytes, Bytes) -> (Bytes, Bytes),      // key, iv, plaintext -> ciphertext, tag
    open: (Bytes, Bytes, Bytes, Bytes) -> Option<Bytes>, // key, iv, ciphertext, tag
    ecdhPem: nat -> string,                             // ephemeral secret -> public key
    derive: (nat, string) -> Option<Bytes>              // SHA-256 of the ECDH secret; None if unreadable
  )

  ghost predicate SignaturesCorrect(p: Primitives) {
    && (forall k :: p.loads(p.publicPem(k)))
    && (forall k, text, coin :: p.verify(p.publicPem(k), text, p.sign(k, text, coin)))
  }

  ghost predicate Reopens(p: Primitives, key: Bytes, iv: Bytes, plaintext: Bytes) {
    var (c, t) := p.seal(key, iv, plaintext);
    |t| == TAG_SIZE && p.open(key, iv, c, t) == Some(plaintext)
  }

  ghost predicate CipherCorrect(p: Primitives) {
    forall key, iv, plaintext :: |key| == KEY_SIZE && |iv| == IV_SIZE ==> Reopens(p, key, iv, plaintext)
  }

  ghost predicate StaysShut(p: Primitives, key: Bytes, other: Bytes, iv: Bytes, plaintext: Bytes) {
    var (c, t) := p.seal(other, iv, plaintext);
    p.open(key, iv, c, t) == None
  }

  /** What was sealed under one key does not open under another. */
  ghost predicate KeysSeparate(p: Primitives) {
    forall key, other, iv, plaintext :: key != other && |key| == |other| == KEY_SIZE ==>
      StaysShut(p, key, other, iv, plaintext)
  }

  ghost predicate SharesKey(p: Primitives, a: nat, b: nat) {
    var key := p.derive(a, p.ecdhPem(b));
    key == p.derive(b, p.ecdhPem(a)) && key.Some? && |key.value| == KEY_SIZE
  }

  ghost predicate EcdhCommutes(p: Primitives) {
    forall a, b :: SharesKey(p, a, b)
  }

  // ---- The laws are consistent ------------------------------------------------------------

  const ZERO_TAG: Bytes := seq(TAG_SIZE, i => 0)
  const ZERO_KEY: Bytes := seq(KEY_SIZE, i => 0)

  /** Sealing may simply carry the key and the plaintext along, and a signature the key and the text; it
      verifies on that text only. */
  const TOY := Primitives(
    key => key,
    text => true,
    (key, text, coin) => Utf8.Encode(key + "|" + text),
    (pem, text, signature) => signature == Utf8.Encode(pem + "|" + text),
    (key, iv, plaintext) => (key + plaintext, ZERO_TAG),
    (key, iv, c, t) => if |key| == KEY_SIZE && key <= c then Some(c[|key|..]) else None,
    secret => "",
    (secret, pem) => Some(ZERO_KEY))

  lemma LawsAreConsistent()
    ensures SignaturesCorrect(TOY) && CipherCorrect(TOY) && KeysSeparate(TOY) && EcdhCommutes(TOY)
    ensures forall key, text, coin, other ::
              TOY.verify(TOY.publicPem(key), other, TOY.sign(key, text, coin)) ==> other == text
  {
    forall key: string, text: string, other: string | Utf8.Encode(key + "|" + text) == Utf8.Encode(key + "|" + other)
      ensures other == text
    {
      Utf8.RoundTrip(key + "|" + text);
      Utf8.RoundTrip(key + "|" + other);
      assert (key + "|" + text)[|key| + 1..] == text && (key + "|" + other)[|key| + 1..] == other;
    }
    forall key: Bytes, iv: Bytes, plaintext: Bytes | |key| == KEY_SIZE && |iv| == IV_SIZE
      ensures Reopens(TOY, key, iv, plaintext)
    {
      assert (key + plaintext)[|key|..] == plaintext;
    }
    forall key: Bytes, other: Bytes, iv: Bytes, plaintext: Bytes | key != other && |key| == |other| == KEY_SIZE
      ensures StaysShut(TOY, key, other, iv, plaintext)
    {
      assert (other + plaintext)[..KEY_SIZE] == other;
    }
  }
}
