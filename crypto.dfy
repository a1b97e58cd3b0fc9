/** The library calls the account flow relies on but does not implement:
    HMAC-SHA512 (section 2 of RFC 2104 over the SHA-512 of section 6.4 of
    FIPS 180-4), UTF-8 encoding and culture-dependent lower-casing. They are
    taken as function-valued parameters, so every result proved here holds
    for any implementation that meets `Primitives.Valid`. */
module Crypto {
  type Byte = bv8
  type Bytes = seq<Byte>

  /** Length in bytes of an HMAC-SHA512 tag: the 512-bit SHA-512 digest. */
  const HashSize: nat := 64

  /** `hmac(key, message)` stands for `new HMACSHA512(key).ComputeHash(message)`,
      `utf8` for `Encoding.UTF8.GetBytes` and `toLower` for `string.ToLower`.
      Being functions, they are deterministic: the same key and message give
      the same tag, which is all that login relies on. */
  datatype Primitives = Primitives(
    hmac: (Bytes, Bytes) -> Bytes,
    utf8: string -> Bytes,
    toLower: string -> string)
  {
    /** What the model assumes of the library: every tag is 64 bytes long,
        and lower-casing a lower-cased string changes nothing. */
    ghost predicate Valid() {
      (forall key: Bytes, message: Bytes :: |hmac(key, message)| == HashSize) &&
      (forall s: string :: toLower(toLower(s)) == toLower(s))
    }
  }
}
