/** The pipe ring buffer (pipe_branch and its read and write leaves in
    kernel/system_tree/fs/pipe/pipe_fs.cpp). */
module PipeFs {
  import opened Common

  const NORMAL_BUFFER_SIZE: nat := 1024

  /** The byte-by-byte pointer step, wrapping when the pointer reaches the end
      of the buffer. */
  function Next(p: nat): (q: nat)
    requires p < NORMAL_BUFFER_SIZE
    ensures q < NORMAL_BUFFER_SIZE
  {
    if p + 1 >= NORMAL_BUFFER_SIZE then 0 else p + 1
  }

  /** The buffer index k bytes after p. */
  function Slot(p: nat, k: nat): (i: nat)
    requires p < NORMAL_BUFFER_SIZE && k < NORMAL_BUFFER_SIZE
    ensures i < NORMAL_BUFFER_SIZE
  {
    if p + k < NORMAL_BUFFER_SIZE then p + k else p + k - NORMAL_BUFFER_SIZE
  }

  /** Bytes waiting to be read: wp - rp, or SIZE + wp - rp once the write
      pointer has wrapped. */
  function Available(rp: nat, wp: nat): (n: nat)
    requires rp < NORMAL_BUFFER_SIZE && wp < NORMAL_BUFFER_SIZE
    ensures n < NORMAL_BUFFER_SIZE
    ensures n == 0 <==> rp == wp
  {
    if wp >= rp then wp - rp else NORMAL_BUFFER_SIZE + wp - rp
  }

  /** Room for new bytes. One slot stays unused so that a full pipe is not
      mistaken for an empty one. */
  function FreeSpace(rp: nat, wp: nat): (n: nat)
    requires rp < NORMAL_BUFFER_SIZE && wp < NORMAL_BUFFER_SIZE
    ensures n + Available(rp, wp) == NORMAL_BUFFER_SIZE - 1
  {
    if rp > wp then rp - wp - 1 else NORMAL_BUFFER_SIZE + rp - wp - 1
  }

  /** A step moves a pointer one slot on. */
  lemma NextSlot(p: nat, k: nat)
    requires p < NORMAL_BUFFER_SIZE && k + 1 < NORMAL_BUFFER_SIZE
    ensures Slot(Next(p), k) == Slot(p, k + 1)
  {
  }

  /** The pointer step as pipe_fs.cpp writes it: the pointer wraps only once
      it is past buf_start + NORMAL_BUFFER_SIZE. */
  function NextAsWritten(p: nat): (q: nat)
    ensures p + 1 < NORMAL_BUFFER_SIZE ==> q == Next(p)
    ensures p + 1 == NORMAL_BUFFER_SIZE ==> q == NORMAL_BUFFER_SIZE && Next(p) == 0
    ensures p >= NORMAL_BUFFER_SIZE ==> q == 0
  {
    if p + 1 > NORMAL_BUFFER_SIZE then 0 else p + 1
  }

  /** The buffer offsets a transfer of n bytes touches from p, as written. */
  function TouchedAsWritten(p: nat, n: nat): (s: seq<nat>)
    ensures |s| == n
    decreases n
  {
    if n == 0 then [] else [p] + TouchedAsWritten(NextAsWritten(p), n - 1)
  }

  /** A pointer moved n steps as written: it never goes past
      buf_start + NORMAL_BUFFER_SIZE, but it can stop there. */
  function AdvanceAsWritten(p: nat, n: nat): (q: nat)
    ensures p <= NORMAL_BUFFER_SIZE ==> q <= NORMAL_BUFFER_SIZE
    decreases n
  {
    if n == 0 then p else AdvanceAsWritten(NextAsWritten(p), n - 1)
  }

  lemma {:induction false} AdvanceAsWrittenNoWrap(p: nat, n: nat)
    requires p + n <= NORMAL_BUFFER_SIZE
    ensures AdvanceAsWritten(p, n) == p + n
    decreases n
  {
    if n > 0 {
      AdvanceAsWrittenNoWrap(p + 1, n - 1);
    }
  }

  /** With the step as written, writing 1024 bytes into a new pipe and reading
      them back leaves both pointers at offset 1024; the next one-byte write
      stores to _buffer[1024], past the end of the 1024-byte buffer. */
  lemma WriteOverrunsBufferAsWritten()
    ensures var wp := AdvanceAsWritten(0, NORMAL_BUFFER_SIZE);
      var rp := AdvanceAsWritten(0, NORMAL_BUFFER_SIZE);
      wp == rp == NORMAL_BUFFER_SIZE && TouchedAsWritten(wp, 1)[0] == NORMAL_BUFFER_SIZE
  {
    AdvanceAsWrittenNoWrap(0, NORMAL_BUFFER_SIZE);
  }

  /** The room for a write as pipe_fs.cpp computes it: SIZE + rp - wp when
      the read pointer is not ahead. */
  function FreeSpaceAsWritten(rp: nat, wp: nat): (n: int)
    ensures rp < NORMAL_BUFFER_SIZE && wp < NORMAL_BUFFER_SIZE ==> n == FreeSpace(rp, wp) + 1
  {
    if rp > wp then rp - wp else NORMAL_BUFFER_SIZE + rp - wp
  }

  /** Even with the wrap corrected, that room lets a write to an empty pipe
      fill all 1024 slots, which brings the write pointer back onto the read
      pointer: the pipe then reads as empty and the data is lost. */
  lemma FullWriteLooksEmptyAsWritten()
    ensures FreeSpaceAsWritten(0, 0) == NORMAL_BUFFER_SIZE
    ensures Slot(0, NORMAL_BUFFER_SIZE - 1) == NORMAL_BUFFER_SIZE - 1 && Next(NORMAL_BUFFER_SIZE - 1) == 0
    ensures Available(0, Next(NORMAL_BUFFER_SIZE - 1)) == 0
  {
  }

  /** The outcome of the checks both leaves make: a deleted parent pipe is
      INVALID_OP, a missing buffer INVALID_PARAM. */
  function LeafCheck(parentAlive: bool, bufferPresent: bool): (r: Option<ErrCode>)
    ensures r.None? <==> parentAlive && bufferPresent
    ensures !parentAlive ==> r == Some(InvalidOp)
    ensures parentAlive && !bufferPresent ==> r == Some(InvalidParam)
  {
    if !parentAlive then Some(InvalidOp)
    else if !bufferPresent then Some(InvalidParam)
    else None
  }

  class PipeBranch {
    var buffer: array<byte>
    var readPtr: nat
    var writePtr: nat
    /** The bytes written and not yet read, oldest first. */
    ghost var contents: seq<byte>

    ghost predicate Valid()
      reads this, buffer
    {
      buffer.Length == NORMAL_BUFFER_SIZE &&
      readPtr < NORMAL_BUFFER_SIZE && writePtr < NORMAL_BUFFER_SIZE &&
      |contents| == Available(readPtr, writePtr) &&
      forall k :: 0 <= k < |contents| ==> contents[k] == buffer[Slot(readPtr, k)]
    }

    constructor ()
      ensures Valid() && fresh(buffer) && contents == []
    {
      buffer := new byte[NORMAL_BUFFER_SIZE];
      readPtr := 0;
      writePtr := 0;
      contents := [];
    }

    /** The read leaf's copy loop: min(available, length, buffer_length)
        bytes leave the pipe, oldest first. */
    method Read(length: u64, out: array<byte>, bufferLength: u64) returns (bytesRead: nat)
      requires Valid() && bufferLength <= out.Length && out != buffer
      modifies this, out
      ensures Valid() && buffer == old(buffer) && buffer[..] == old(buffer[..])
      ensures bytesRead == Min(Available(old(readPtr), old(writePtr)), Min(length, bufferLength))
      ensures out[..bytesRead] == old(contents)[..bytesRead]
      ensures out[bytesRead..] == old(out[bytesRead..])
      ensures contents == old(contents)[bytesRead..]
    {
      var len: nat := length;
      if len > bufferLength {
        len := bufferLength;
      }
      var readLength := Available(readPtr, writePtr);
      if len < readLength {
        readLength := len;
      }
      ghost var initial := contents;
      bytesRead := 0;
      while bytesRead < readLength
        invariant Valid() && buffer == old(buffer) && buffer[..] == old(buffer[..])
        invariant bytesRead <= readLength <= |initial|
        invariant contents == initial[bytesRead..]
        invariant out[..bytesRead] == initial[..bytesRead]
        invariant out[bytesRead..] == old(out[bytesRead..])
      {
        out[bytesRead] := buffer[readPtr];
        assert contents[0] == buffer[Slot(readPtr, 0)];
        forall k | 0 <= k < |contents| - 1
          ensures contents[k + 1] == buffer[Slot(Next(readPtr), k)]
        {
          NextSlot(readPtr, k);
        }
        readPtr := Next(readPtr);
        contents := contents[1..];
        bytesRead := bytesRead + 1;
        assert out[..bytesRead] == out[..bytesRead - 1] + [out[bytesRead - 1]];
      }
    }

    /** The write leaf's copy loop: min(free space, buffer_length, length)
        bytes join the pipe after what it already holds. */
    method Write(length: u64, src: array<byte>, bufferLength: u64) returns (bytesWritten: nat)
      requires Valid() && bufferLength <= src.Length && src != buffer
      modifies this, buffer
      ensures Valid() && buffer == old(buffer) && readPtr == old(readPtr)
      ensures bytesWritten == Min(FreeSpace(old(readPtr), old(writePtr)), Min(bufferLength, length))
      ensures contents == old(contents) + src[..bytesWritten]
    {
      var writeLength := FreeSpace(readPtr, writePtr);
      if bufferLength < writeLength {
        writeLength := bufferLength;
      }
      if length < writeLength {
        writeLength := length;
      }
      ghost var initial := contents;
      bytesWritten := 0;
      while bytesWritten < writeLength
        invariant Valid() && buffer == old(buffer) && readPtr == old(readPtr)
        invariant bytesWritten <= writeLength
        invariant |initial| + writeLength <= NORMAL_BUFFER_SIZE - 1
        invariant contents == initial + src[..bytesWritten]
      {
        assert writePtr == Slot(readPtr, |contents|);
        buffer[writePtr] := src[bytesWritten];
        forall k | 0 <= k < |contents|
          ensures Slot(readPtr, k) != writePtr
        {
        }
        writePtr := Next(writePtr);
        contents := contents + [src[bytesWritten]];
        bytesWritten := bytesWritten + 1;
        assert src[..bytesWritten] == src[..bytesWritten - 1] + [src[bytesWritten - 1]];
      }
    }
  }

  /** pipe_read_leaf: holds a weak reference to its pipe. */
  class PipeReadLeaf {
    var parent: PipeBranch?

    constructor (p: PipeBranch)
      ensures parent == p
    {
      parent := p;
    }

    /** read_bytes without blocking. */
    method ReadBytes(length: u64, out: array?<byte>, bufferLength: u64) returns (result: ErrCode, bytesRead: nat)
      requires parent != null ==> parent.Valid()
      requires out != null ==> bufferLength <= out.Length && (parent != null ==> out != parent.buffer)
      modifies parent, out
      ensures LeafCheck(parent != null, out != null).Some? ==>
        result == LeafCheck(parent != null, out != null).value && bytesRead == 0
      ensures LeafCheck(parent != null, out != null).None? ==>
        && result == NoError
        && parent.Valid()
        && bytesRead == Min(Available(old(parent.readPtr), old(parent.writePtr)), Min(length, bufferLength))
        && out[..bytesRead] == old(parent.contents)[..bytesRead]
        && parent.contents == old(parent.contents)[bytesRead..]
    {
      bytesRead := 0;
      var check := LeafCheck(parent != null, out != null);
      if check.Some? {
        result := check.value;
      } else {
        bytesRead := parent.Read(length, out, bufferLength);
        result := NoError;
      }
    }
  }

  /** pipe_write_leaf: holds a weak reference to its pipe. */
  class PipeWriteLeaf {
    var parent: PipeBranch?

    constructor (p: PipeBranch)
      ensures parent == p
    {
      parent := p;
    }

    /** write_bytes, leaving out the new-data message. */
    method WriteBytes(length: u64, src: array?<byte>, bufferLength: u64) returns (result: ErrCode, bytesWritten: nat)
      requires parent != null ==> parent.Valid()
      requires src != null ==> bufferLength <= src.Length && (parent != null ==> src != parent.buffer)
      modifies parent, if parent != null then {parent.buffer} else {}
      ensures LeafCheck(parent != null, src != null).Some? ==>
        result == LeafCheck(parent != null, src != null).value && bytesWritten == 0
      ensures LeafCheck(parent != null, src != null).None? ==>
        && result == NoError
        && parent.Valid()
        && bytesWritten == Min(FreeSpace(old(parent.readPtr), old(parent.writePtr)), Min(bufferLength, length))
        && parent.contents == old(parent.contents) + src[..bytesWritten]
    {
      bytesWritten := 0;
      var check := LeafCheck(parent != null, src != null);
      if check.Some? {
        result := check.value;
      } else {
        bytesWritten := parent.Write(length, src, bufferLength);
        result := NoError;
      }
    }
  }
}
