/** Byte contents of files and the "read it, or fall back to a default" rule
    that every loader of the program follows (the WebDAV settings, the local
    sync manifest, the reading library). */
module Storage {
  import opened Wrappers

  newtype byte = x: int | 0 <= x < 256

  type Bytes = seq<byte>

  /** What reading a file yields: it is missing, it exists but cannot be read
      (an I/O error, or text that is not UTF-8), or it holds these bytes. */
  datatype Stored = Missing | Unreadable | Present(bytes: Bytes)

  /** The value a file decodes to, or `fallback` when the file is missing,
      unreadable or does not decode. */
  function LoadOr<T>(f: Stored, decode: Bytes -> Option<T>, fallback: T): (r: T)
    ensures r == fallback || (f.Present? && decode(f.bytes) == Some(r))
    ensures !f.Present? ==> r == fallback
    ensures f.Present? && decode(f.bytes).None? ==> r == fallback
    ensures f.Present? && decode(f.bytes).Some? ==> r == decode(f.bytes).value
  {
    if f.Present? then decode(f.bytes).GetOr(fallback) else fallback
  }

  /** A value written with an encoder that its decoder inverts is read back. */
  lemma LoadSaved<T>(x: T, encode: T -> Bytes, decode: Bytes -> Option<T>, fallback: T)
    requires decode(encode(x)) == Some(x)
    ensures LoadOr(Present(encode(x)), decode, fallback) == x
  {
  }
}
