/**
 * The converter's BinaryWriter over the output file, with Encoding.Unicode:
 * the bytes written so far, appended to by each Write.
 */
module BinaryWriters {
  import opened BigEndian
  import opened LittleEndian
  import opened Vertices

  class BinaryWriter {
    /** Everything written so far, in order. */
    var bytes: seq<Byte>

    constructor ()
      ensures bytes == []
    {
      bytes := [];
    }

    /** Write(byte). */
    method WriteByte(b: Byte)
      modifies this
      ensures bytes == old(bytes) + [b]
    {
      bytes := bytes + [b];
    }

    /** Write(byte[]): the bytes as they are. */
    method WriteBytes(bs: seq<Byte>)
      modifies this
      ensures bytes == old(bytes) + bs
    {
      bytes := bytes + bs;
    }

    /** Write(int). */
    method WriteInt32(v: int)
      modifies this
      ensures bytes == old(bytes) + Int32Bytes(v)
    {
      bytes := bytes + Int32Bytes(v);
    }

    /** Write(float). */
    method WriteSingle(f: Single)
      modifies this
      ensures bytes == old(bytes) + SingleBytes(f)
    {
      bytes := bytes + SingleBytes(f);
    }

    /** Write(char): a lone surrogate is refused and nothing is written. */
    method WriteChar(c: int) returns (ok: bool)
      requires IsUInt16(c)
      modifies this
      ensures ok <==> !IsSurrogate(c)
      ensures bytes == if ok then old(bytes) + CharBytes(c) else old(bytes)
    {
      if IsSurrogate(c) {
        return false;
      }
      bytes := bytes + CharBytes(c);
      return true;
    }
  }
}
