/** The mutable byte buffer the codecs work on. */
module ByteBuffer {
  import opened Bytes

  /** `bytes::BytesMut`. */
  class Buffer {
    var data: seq<byte>

    constructor (initial: seq<byte>)
      ensures data == initial
    {
      data := initial;
    }

    method Append(s: seq<byte>)
      modifies this
      ensures data == old(data) + s
    {
      data := data + s;
    }

    method ReadUint(k: nat) returns (n: nat)
      requires |data| >= k
      modifies this
      ensures GetUint(old(data), k) == Ok(n, data)
    {
      n := ValueOf(data[..k]);
      data := data[k..];
    }

    method Clear()
      modifies this
      ensures data == []
    {
      data := [];
    }
  }
}
