/**
 The cryptographic primitives the two programs call, as parameters.

 Nothing is assumed of them beyond the functional contract of a correct library:
 a public key survives its X.509 encoding, RSA decryption undoes RSA encryption of a
 symmetric key, and CMAC is a function of key and message with a 16-byte result.
 */
module Crypto {
  import opened ByteTypes

  const CMAC_SIZE: nat := 16
  const SYM_KEY_SIZE: nat := 16

  type Tag = t: Bytes | |t| == CMAC_SIZE witness seq(CMAC_SIZE, _ => 0)

  /** RSA keys are opaque handles; `enc` takes the encryption randomness as its last argument. */
  datatype Suite = Suite(
    publicOf: nat -> nat,
    der: nat -> Bytes,
    load: Bytes -> Option<nat>,
    enc: (nat, Bytes, Bytes) -> Bytes,
    dec: (nat, Bytes) -> Option<Bytes>,
    cmac: (Bytes, Bytes) -> Tag)
  {
    ghost predicate Lawful() {
      && (forall pk: nat :: load(der(pk)) == Some(pk))
      && (forall sk: nat, m, r | |m| == SYM_KEY_SIZE :: dec(sk, enc(publicOf(sk), m, r)) == Some(m))
    }
  }

  /** A keyed MAC object: `update` accumulates, `final` returns the tag and starts a new message. */
  datatype Mac = Mac(key: Bytes, pending: Bytes) {
    function Update(data: Bytes): Mac {
      this.(pending := pending + data)
    }

    function Final(suite: Suite): (Tag, Mac) {
      (suite.cmac(key, pending), this.(pending := []))
    }
  }

  /** Updates accumulate: in pieces or at once, the tag is that of all the data, and the object starts afresh. */
  lemma UpdatesAccumulate(suite: Suite, mac: Mac, a: Bytes, b: Bytes)
    requires mac.pending == []
    ensures mac.Update(a).Update(b).Final(suite) == (suite.cmac(mac.key, a + b), mac)
    ensures mac.Update(a).Update(b).Final(suite) == mac.Update(a + b).Final(suite)
  {
    assert [] + a + b == a + b && [] + (a + b) == a + b;
  }
}
