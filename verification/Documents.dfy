/** Encoded log documents are opaque byte strings. */
module Documents {
  newtype byte = x: int | 0 <= x < 256

  type Document = seq<byte>
}
