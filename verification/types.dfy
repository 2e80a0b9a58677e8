/** Value types shared by the store and the command dispatcher. */
module Types {

  /** One octet of a value (`bytes::Bytes` holds a sequence of them). */
  newtype byte = x: int | 0 <= x < 0x100

  /** The output of `Hasher::finish`, a 64-bit unsigned integer. */
  newtype u64 = x: int | 0 <= x < 0x1_0000_0000_0000_0000

  /** An opaque byte string, the type of every stored value. */
  type Bytes = seq<byte>

  /** Rust's `Option`: a lookup either finds a value or finds nothing. */
  datatype Option<T> = None | Some(value: T)

  /** `HashMap::get` followed by a clone of the value found. */
  function MapLookup<K, V>(m: map<K, V>, key: K): Option<V>
  {
    if key in m then Some(m[key]) else None
  }
}
