/** The cryptographic primitives Core relies on, as abstract functions with the
    laws the rest of the model may use. Nothing here looks inside AES-GCM or
    HMAC-SHA256. */
module Crypto {
  import opened Wrappers

  /** One keyed AEAD cipher: `seal(nonce, plaintext)` is the text stored in a
      column, `open` its inverse, which may fail. */
  datatype Cipher = Cipher(seal: (nat, string) -> string, open: string -> Option<string>)

  /** Whatever was sealed opens to its plaintext, and a sealed text is base64:
      never empty, never containing the audit log's separator. */
  ghost predicate Lawful(c: Cipher) {
    forall n: nat, p: string ::
      c.open(c.seal(n, p)) == Some(p) && c.seal(n, p) != "" && '|' !in c.seal(n, p)
  }

  /** HMAC-SHA256 under one master key (section 2 of RFC 2104), hex encoded and
      idealised: no two inputs share a code, and a code is never empty. */
  ghost predicate Ideal(mac: string -> string) {
    && (forall a: string, b: string :: mac(a) == mac(b) ==> a == b)
    && (forall a: string :: mac(a) != "" && '|' !in mac(a))
  }
}
