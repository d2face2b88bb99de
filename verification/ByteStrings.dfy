// Byte strings, as the two strip loops read them.
module ByteStrings {

  type byte = b: int | 0 <= b < 256

  type Bytes = seq<byte>

  lemma Assoc<T>(a: seq<T>, b: seq<T>, c: seq<T>)
    ensures (a + b) + c == a + (b + c)
  {
  }
}
