/** Bytes, and the failure-free option type shared by every module. */
module ByteTypes {
  type Byte = b: nat | b < 256
  type Bytes = seq<Byte>

  datatype Option<+T> = None | Some(value: T)

  /** memcpy/memmove of all of `data` into `buffer` at `offset`. */
  function Overwrite<T>(buffer: seq<T>, offset: nat, data: seq<T>): (r: seq<T>)
    requires offset + |data| <= |buffer|
    ensures |r| == |buffer|
  {
    buffer[..offset] + data + buffer[offset + |data|..]
  }

  method WriteBytes(buf: array<Byte>, at: nat, bytes: Bytes)
    requires at + |bytes| <= buf.Length
    modifies buf
    ensures buf[..] == Overwrite(old(buf[..]), at, bytes)
  {
    forall k | 0 <= k < |bytes| {
      buf[at + k] := bytes[k];
    }
  }
}
