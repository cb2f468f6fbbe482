/** The file behind `ram_file_t`: a byte sequence with positioned reads and writes. */
module RamFile {
  import opened Status

  type byte = x: nat | x < 256

  const SIZE_WRAP: nat := 0x1_0000_0000_0000_0000
  const LONG_LIMIT: nat := 0x8000_0000_0000_0000
  const DEFAULT_MAX_FILE_SIZE: nat := 10 * 1024 * 1024

  /** A 64-bit `size_t`. */
  type uint64 = x: nat | x < SIZE_WRAP

  type Bytes = seq<byte>

  /** A position plus a size in 64-bit arithmetic. */
  function Sum64(offset: uint64, size: nat): (r: uint64)
    requires size < LONG_LIMIT
    ensures r == (offset + size) % 0x1_0000_0000_0000_0000
  {
    if offset + size < SIZE_WRAP then offset + size else offset + size - SIZE_WRAP
  }

  /** The byte at a position; zero beyond the end, as the file system fills a gap. */
  function Padded(file: Bytes, p: nat): byte {
    if p < |file| then file[p] else 0
  }

  /** The file after writing `data` at `offset`, with any gap filled with zeros. */
  function Overwrite(file: Bytes, offset: nat, data: Bytes): Bytes {
    var kept := if offset <= |file| then file[..offset] else file + seq(offset - |file|, (i: nat) => 0 as byte);
    var rest := if offset + |data| <= |file| then file[offset + |data|..] else [];
    kept + data + rest
  }

  /** A write changes exactly its range; the file only ever grows. */
  lemma OverwriteBytes(file: Bytes, offset: nat, data: Bytes, p: nat)
    ensures |Overwrite(file, offset, data)| == if |file| <= offset + |data| then offset + |data| else |file|
    ensures Padded(Overwrite(file, offset, data), p)
         == if offset <= p < offset + |data| then data[p - offset] else Padded(file, p)
  {
  }

  /** Sequences of bytes are equal when they have the same length and the same bytes. */
  lemma SameBytes(a: Bytes, b: Bytes)
    requires |a| == |b| && forall p :: 0 <= p < |a| ==> Padded(a, p) == Padded(b, p)
    ensures a == b
  {
    forall p | 0 <= p < |a| ensures a[p] == b[p] {
      assert Padded(a, p) == Padded(b, p);
    }
  }

  class RamFile {
    const maxFileSize: nat
    var content: Bytes

    /** Opens a file with whatever contents it already has. */
    constructor (existing: Bytes, configuredMax: uint64)
      ensures content == existing
      ensures maxFileSize == if configuredMax == 0 then 10485760 else configuredMax
    {
      content := existing;
      maxFileSize := if configuredMax == 0 then DEFAULT_MAX_FILE_SIZE else configuredMax;
    }

    /**
     * Fills the front of the caller's buffer from the file. A read that runs past the end
     * fails after delivering what there is.
     */
    method Read(offset: uint64, buffer: array<byte>, size: nat) returns (rc: Code)
      requires size <= buffer.Length < 0x8000_0000_0000_0000
      modifies buffer
      ensures rc == SUCCESS <==>
              size > 0 && offset < 0x8000_0000_0000_0000 && offset + size <= maxFileSize && offset + size <= |content|
      ensures rc == SUCCESS ==> buffer[..size] == content[offset..offset + size]
      ensures rc == Some(EIO) && offset < 0x8000_0000_0000_0000 ==>
                forall i :: 0 <= i < size ==>
                  buffer[i] == if offset + i < |content| then content[offset + i] else old(buffer[i])
      ensures forall i :: 0 <= i < buffer.Length ==>
                (size <= i || offset >= 0x8000_0000_0000_0000 || rc == Some(EINVAL) || rc == Some(EFBIG) ==>
                   buffer[i] == old(buffer[i]))
      ensures rc != SUCCESS ==>
                rc == Some(if size == 0 then EINVAL
                           else if Sum64(offset, size) > maxFileSize then EFBIG else EIO)
    {
      if size == 0 { return Some(EINVAL); }
      if Sum64(offset, size) > maxFileSize { return Some(EFBIG); }
      if offset >= LONG_LIMIT { return Some(EIO); }
      var available := if offset + size <= |content| then size
                       else if offset <= |content| then |content| - offset else 0;
      for i := 0 to available
        invariant forall j :: 0 <= j < i ==> buffer[j] == content[offset + j]
        invariant forall j :: i <= j < buffer.Length ==> buffer[j] == old(buffer[j])
      {
        buffer[i] := content[offset + i];
      }
      if available != size { return Some(EIO); }
      return SUCCESS;
    }

    /** Writes all of `data` at `offset`, or changes nothing. */
    method Write(offset: uint64, data: Bytes) returns (rc: Code)
      requires |data| < 0x8000_0000_0000_0000
      modifies this
      ensures rc == SUCCESS <==> data != [] && offset < 0x8000_0000_0000_0000 && offset + |data| <= maxFileSize
      ensures content == if rc == SUCCESS then Overwrite(old(content), offset, data) else old(content)
      ensures rc != SUCCESS ==>
                rc == Some(if data == [] then EINVAL
                           else if Sum64(offset, |data|) > maxFileSize then EFBIG else EINVAL)
    {
      if |data| == 0 { return Some(EINVAL); }
      var writeEnd := Sum64(offset, |data|);
      if writeEnd > maxFileSize { return Some(EFBIG); }
      if offset >= LONG_LIMIT { return Some(EINVAL); }
      content := Overwrite(content, offset, data);
      return SUCCESS;
    }
  }
}
