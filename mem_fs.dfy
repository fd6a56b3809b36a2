/** The in-memory file (mem_fs_leaf in kernel/system_tree/fs/mem/mem_fs.cpp):
    a byte buffer that reads truncate against and writes grow. */
module MemFs {
  import opened Common

  /** n zero bytes. */
  function Zeros(n: nat): (z: seq<byte>)
    ensures |z| == n && forall i :: 0 <= i < n ==> z[i] == 0
  {
    if n == 0 then [] else Zeros(n - 1) + [0]
  }

  /** The file contents after _no_lock_set_file_size(n). */
  function Resized(s: seq<byte>, n: nat): (r: seq<byte>)
    ensures |r| == n
    ensures forall i :: 0 <= i < n && i < |s| ==> r[i] == s[i]
    ensures forall i :: |s| <= i < n ==> r[i] == 0
  {
    var keep := Min(n, |s|);
    s[..keep] + Zeros(n - keep)
  }

  /** Shrinking and growing back zero-fills what was cut off. */
  lemma ResizeShrinkGrow(s: seq<byte>, m: nat, n: nat)
    requires m <= |s| && m <= n
    ensures Resized(Resized(s, m), n) == s[..m] + Zeros(n - m)
  {
    var r := Resized(Resized(s, m), n);
    assert forall i :: 0 <= i < n ==> r[i] == (s[..m] + Zeros(n - m))[i];
  }

  /** The number of bytes read_bytes copies, as intended: none when start is
      past the end, otherwise the request cut at the end of the file and at
      the caller's buffer. */
  function ReadLength(start: u64, length: u64, fileLength: nat, bufferLength: u64): (n: nat)
    ensures start > fileLength ==> n == 0
    ensures start <= fileLength ==> n == Min(Min(length, fileLength - start), bufferLength)
    ensures start + n <= Max(start, fileLength) && n <= bufferLength && n <= length
  {
    if start > fileLength then 0
    else
      var l := if start + length > fileLength then fileLength - start else length;
      if l > bufferLength then bufferLength else l
  }

  /** The same computation with start + length evaluated in uint64_t, as
      read_bytes writes it. Even then the copy stays within the request and
      the caller's buffer. */
  function ReadLengthAsWritten(start: u64, length: u64, fileLength: u64, bufferLength: u64): (n: nat)
    ensures n <= bufferLength && n <= length
    ensures start > fileLength ==> n == 0
  {
    if start > fileLength then 0
    else
      var l := if Wrap64(start + length) > fileLength then fileLength - start else length;
      if l > bufferLength then bufferLength else l
  }

  /** A length that makes start + length wrap past 2^64 escapes the end-of-file
      cut, so the copy would run past the end of a 16-byte file. */
  lemma ReadLengthWrapReadsPastEnd()
    ensures var n := ReadLengthAsWritten(8, TWO_TO_64 - 4, 16, 100);
      n == 100 && 8 + n > 16 && ReadLength(8, TWO_TO_64 - 4, 16, 100) == 8
  {
    assert Wrap64(8 + (TWO_TO_64 - 4)) == 4;
  }

  /** Apart from that wrap, the two computations agree. */
  lemma ReadLengthAgrees(start: u64, length: u64, fileLength: u64, bufferLength: u64)
    requires start + length < TWO_TO_64
    ensures ReadLengthAsWritten(start, length, fileLength, bufferLength) == ReadLength(start, length, fileLength, bufferLength)
  {
  }

  /** The size write_bytes leaves the file at, with start + length computed
      in uint64_t as the source does: grown to that sum when it passes the
      end. */
  function WriteSizeAsWritten(start: u64, length: u64, fileLength: u64): (n: nat)
    ensures n >= fileLength
    ensures start + length < TWO_TO_64 ==> n == Max(fileLength, start + length)
  {
    if Wrap64(start + length) > fileLength then Wrap64(start + length) else fileLength
  }

  /** A write of 8 bytes at 2^64 - 4 into a 16-byte file: the end wraps to
      4, so the file is not grown and the ASSERT that the end lies within
      the file passes, yet the copy covers bytes 2^64 - 4 onwards, far past
      the 16 the file has. */
  lemma WriteWrapPassesAssertAsWritten()
    ensures var n := WriteSizeAsWritten(TWO_TO_64 - 4, 8, 16);
      n == 16 && Wrap64(TWO_TO_64 - 4 + 8) <= n && TWO_TO_64 - 4 + 8 > n
  {
    assert Wrap64(TWO_TO_64 - 4 + 8) == 4;
  }

  /** The contents after writing src at start: grown to start + |src| when
      that passes the end, with src in place and everything else kept. */
  function Written(s: seq<byte>, start: nat, src: seq<byte>): (r: seq<byte>)
    ensures |r| == Max(|s|, start + |src|)
    ensures r[start..start + |src|] == src
    ensures forall i :: 0 <= i < |r| && !(start <= i < start + |src|) ==> r[i] == (if i < |s| then s[i] else 0)
  {
    var grown := if start + |src| > |s| then Resized(s, start + |src|) else s;
    grown[..start] + src + grown[start + |src|..]
  }

  class MemFsLeaf {
    /** _buffer; its length is _buffer_length. */
    var buffer: array<byte>

    constructor ()
      ensures buffer.Length == 0
    {
      buffer := new byte[0];
    }

    /** get_file_size. */
    method GetFileSize() returns (result: ErrCode, fileSize: nat)
      ensures result == NoError && fileSize == buffer.Length
    {
      result := NoError;
      fileSize := buffer.Length;
    }

    /** _no_lock_set_file_size and set_file_size: a new buffer holding the
        kept prefix, zero-filled beyond the old end. */
    method SetFileSize(fileSize: nat)
      modifies this
      ensures fresh(buffer)
      ensures buffer[..] == Resized(old(buffer[..]), fileSize)
    {
      var newBuffer := new byte[fileSize];
      var copySize := if fileSize < buffer.Length then fileSize else buffer.Length;
      forall i | 0 <= i < copySize {
        newBuffer[i] := buffer[i];
      }
      if fileSize > buffer.Length {
        forall i | buffer.Length <= i < fileSize {
          newBuffer[i] := 0;
        }
      }
      assert newBuffer[..] == Resized(buffer[..], fileSize);
      buffer := newBuffer;
    }

    /** read_bytes: a missing buffer is INVALID_PARAM; otherwise the bytes
        from start, cut as ReadLength says, are copied to the front of out. */
    method ReadBytes(start: u64, length: u64, out: array?<byte>, bufferLength: u64) returns (result: ErrCode, bytesRead: nat)
      requires out != null ==> bufferLength <= out.Length && out != buffer
      modifies out
      ensures out == null ==> result == InvalidParam && bytesRead == 0
      ensures out != null ==> result == NoError && bytesRead == ReadLength(start, length, buffer.Length, bufferLength)
      ensures out != null && bytesRead > 0 ==> out[..bytesRead] == buffer[start..start + bytesRead]
      ensures out != null ==> out[bytesRead..] == old(out[bytesRead..])
    {
      if out == null {
        result := InvalidParam;
        bytesRead := 0;
      } else {
        result := NoError;
        if start > buffer.Length {
          bytesRead := 0;
        } else {
          var len: nat := length;
          if start + len > buffer.Length {
            len := buffer.Length - start;
          }
          if len > bufferLength {
            len := bufferLength;
          }
          forall i | 0 <= i < len {
            out[i] := buffer[start + i];
          }
          bytesRead := len;
        }
      }
    }

    /** write_bytes: the request is cut to the caller's buffer, the file grows
        to fit it, and the bytes are copied in. A write whose end does not fit
        in 64 bits is refused with INVALID_PARAM, where the source computes the
        end in uint64_t and lets the wrapped value through
        (WriteWrapPassesAssertAsWritten). */
    method WriteBytes(start: u64, length: u64, src: array<byte>, bufferLength: u64) returns (result: ErrCode, bytesWritten: nat)
      requires bufferLength <= src.Length
      requires src != buffer
      modifies this, buffer
      ensures start + Min(length, bufferLength) >= TWO_TO_64 ==>
        result == InvalidParam && bytesWritten == 0 && buffer == old(buffer) && buffer[..] == old(buffer[..])
      ensures start + Min(length, bufferLength) < TWO_TO_64 ==>
        && result == NoError && bytesWritten == Min(length, bufferLength)
        && buffer[..] == Written(old(buffer[..]), start, old(src[..bytesWritten]))
      ensures src[..] == old(src[..])
    {
      var len: nat := length;
      if bufferLength < len {
        len := bufferLength;
      }
      if start + len >= TWO_TO_64 {
        return InvalidParam, 0;
      }
      result := NoError;
      ghost var before := buffer[..];
      ghost var data := src[..len];
      if start + len > buffer.Length {
        SetFileSize(start + len);
      }
      ghost var grown := buffer[..];
      forall i | 0 <= i < len {
        buffer[start + i] := src[i];
      }
      assert buffer[..] == grown[..start] + data + grown[start + len..];
      bytesWritten := len;
    }
  }
}
