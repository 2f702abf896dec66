/** Data shared by all layers: options, block contents and the ideal AEAD. */
module Common {

  datatype Option<+T> = None | Some(value: T)

  /** The bytes of one block. No layer looks inside. */
  type Block = seq<int>

  /** Authentication code of an ideal AEAD: it names the key and the plaintext it was made from. */
  datatype Mac = Mac(key: int, plain: Block)

  /** What encryption leaves on the host disk. */
  datatype Cipher = Cipher(key: int, plain: Block)

  function Encrypt(key: int, plain: Block): (r: (Cipher, Mac))
    ensures Decrypt(r.0, key, r.1) == Some(plain)
  {
    (Cipher(key, plain), Mac(key, plain))
  }

  /** Decryption succeeds only on what was sealed under the same key and carries the same MAC. */
  function Decrypt(c: Cipher, key: int, mac: Mac): (r: Option<Block>)
    ensures r.Some? <==> (mac.key == key == c.key && mac.plain == c.plain)
    ensures r.Some? ==> r.value == mac.plain
  {
    if c.key == key && mac == Mac(key, c.plain) then Some(c.plain) else None
  }
}
