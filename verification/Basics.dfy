/** Bytes, nibbles, digests and the optional value that the other modules share. */
module Basics {
  newtype byte = b: int | 0 <= b < 0x100
  newtype nibble = n: int | 0 <= n < 0x10

  type Bytes = seq<byte>
  type Nibbles = seq<nibble>

  /** A 256-bit digest. */
  type Hash = h: Bytes | |h| == 32 witness seq(32, _ => 0)

  datatype Option<+T> = None | Some(value: T)

  /** The hash of the empty trie, a literal in the program. */
  const EMPTY_ROOT: Hash := [
    0x56, 0xe8, 0x1f, 0x17, 0x1b, 0xcc, 0x55, 0xa6, 0xff, 0x83, 0x45, 0xe6, 0x92, 0xc0, 0xf8, 0x6e,
    0x5b, 0x48, 0xe0, 0x1b, 0x99, 0x6c, 0xad, 0xc0, 0x01, 0x62, 0x2f, 0xb5, 0xe3, 0x63, 0xb4, 0x21
  ]

  /** The RLP code of the empty string. */
  const EMPTY_STRING_CODE: byte := 0x80

  /** The digest of the empty byte string, a literal in the program. */
  const KECCAK_EMPTY: Hash := [
    0xc5, 0xd2, 0x46, 0x01, 0x86, 0xf7, 0x23, 0x3c, 0x92, 0x7e, 0x7d, 0xb2, 0xdc, 0xc7, 0x03, 0xc0,
    0xe5, 0x00, 0xb6, 0x53, 0xca, 0x82, 0x27, 0x3b, 0x7b, 0xfa, 0xd8, 0x04, 0x5d, 0x85, 0xa4, 0x70
  ]

  /** Any function that can stand for Keccak-256: all that is known of it are the digests of the
      encoding of the empty trie and of nothing. */
  type Keccak = f: Bytes -> Hash | f([EMPTY_STRING_CODE]) == EMPTY_ROOT && f([]) == KECCAK_EMPTY
    witness (b: Bytes) => if b == [] then KECCAK_EMPTY else EMPTY_ROOT

  /** No two different byte strings, one from each set, have the same digest. */
  ghost predicate NoCollision(K: Keccak, xs: set<Bytes>, ys: set<Bytes>) {
    forall x, y :: x in xs && y in ys && K(x) == K(y) ==> x == y
  }
}
