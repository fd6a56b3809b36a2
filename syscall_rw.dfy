/** Handle read, write and seek (kernel/syscall/syscall_rw.cpp): the argument
    checks, the request passed on to the file and the seek_position update. */
module SyscallRw {
  import opened Common

  /** SEEK_OFFSET; Invalid stands for any other value the caller passes. */
  datatype SeekDir = FromStart | FromEnd | FromCur | Invalid

  /** What the calling thread's handle table yields for the handle: nothing,
      an object lacking the needed interface, or one that has it. */
  datatype Target = NoObject | WrongKind | Capable

  /** The argument checks the read and write calls make, in their order:
      the buffer, the out-pointer, a zero buffer size, the current thread and
      the handle. None means the call reaches the file. */
  function TransferCheck(bufferOk: bool, outPtrOk: bool, bufferSize: u64, threadFound: bool, target: Target): (r: Option<ErrCode>)
    ensures r.None? <==> bufferOk && outPtrOk && bufferSize != 0 && threadFound && target.Capable?
    ensures bufferSize == 0 ==> r.Some? && r.value == InvalidParam
    ensures r.Some? && r.value == InvalidOp ==> !threadFound || target.WrongKind?
  {
    if !bufferOk || !outPtrOk || bufferSize == 0 then Some(InvalidParam)
    else if !threadFound then Some(InvalidOp)
    else if target.NoObject? then Some(InvalidParam)
    else if target.WrongKind? then Some(InvalidOp)
    else None
  }

  /** The position a seek proposes, computed in uint64_t as the source does:
      the signed offset is converted and the sum or difference wraps. */
  function ProposedOffset(dir: SeekDir, offset: i64, size: u64, pos: u64): (r: Option<u64>)
    ensures r.None? <==> dir == Invalid
  {
    match dir
    case FromStart => Some(Wrap64(offset))
    case FromEnd => Some(Wrap64(size - offset))
    case FromCur => Some(Wrap64(pos + offset))
    case Invalid => None
  }

  /** The outcome of a seek on a file of the given size: the new position, or
      INVALID_PARAM for a bad direction, or OUT_OF_RANGE beyond the end. */
  function SeekResult(dir: SeekDir, offset: i64, size: u64, pos: u64): (r: Result<u64>)
    ensures r.Ok? ==> r.value <= size
    ensures r.Err? ==> r.code == InvalidParam || r.code == OutOfRange
    ensures r.Err? && r.code == InvalidParam <==> dir == Invalid
  {
    match ProposedOffset(dir, offset, size, pos)
    case None => Err(InvalidParam)
    case Some(p) => if p <= size then Ok(p) else Err(OutOfRange)
  }

  /** The mathematical target of a seek, before any uint64_t conversion. */
  function ExactTarget(dir: SeekDir, offset: i64, size: u64, pos: u64): int
  {
    match dir
    case FromStart => offset
    case FromEnd => size - offset
    case FromCur => pos + offset
    case Invalid => 0
  }

  /** For files and positions below 2^63 the wrapping arithmetic never turns
      an out-of-range target into an in-range one: a seek succeeds exactly
      when its target lies in 0..size, and then lands on that target. */
  lemma SeekIsExact(dir: SeekDir, offset: i64, size: u64, pos: u64)
    requires dir != Invalid
    requires size < 0x8000_0000_0000_0000 && pos < 0x8000_0000_0000_0000
    ensures var t := ExactTarget(dir, offset, size, pos);
      SeekResult(dir, offset, size, pos) == (if 0 <= t <= size then Ok(t) else Err(OutOfRange))
  {
    var t := ExactTarget(dir, offset, size, pos);
    assert -TWO_TO_64 < t < TWO_TO_64;
    if t < 0 {
      assert Wrap64(t) == t + TWO_TO_64;
    }
  }

  /** A seek from the start or the end by a value in 0..size always succeeds. */
  lemma SeekWithinFile(offset: i64, size: u64, pos: u64)
    requires 0 <= offset <= size
    ensures SeekResult(FromStart, offset, size, pos) == Ok(offset as u64)
    ensures SeekResult(FromEnd, offset, size, pos) == Ok((size - offset) as u64)
  {
  }

  /** A handle's per-thread data (object_data::data). */
  class HandleData {
    var seekPosition: u64

    constructor ()
      ensures seekPosition == 0
    {
      seekPosition := 0;
    }

    /** syscall_read_handle / syscall_write_handle. When the checks pass the
        file is asked to transfer 'bytesToTransfer' trimmed to the buffer size,
        starting at startOffset plus the seek position; fileResult and
        transferred are what the file's read_bytes or write_bytes reports, and
        the seek position advances by the bytes it transferred. */
    method Transfer(startOffset: u64, bytesToTransfer: u64, bufferSize: u64,
                    bufferOk: bool, outPtrOk: bool, threadFound: bool, target: Target,
                    fileResult: ErrCode, transferred: u64)
      returns (result: ErrCode, request: Option<(u64, u64)>)
      modifies this
      ensures TransferCheck(bufferOk, outPtrOk, bufferSize, threadFound, target).Some? ==>
        result == TransferCheck(bufferOk, outPtrOk, bufferSize, threadFound, target).value &&
        request.None? && seekPosition == old(seekPosition)
      ensures TransferCheck(bufferOk, outPtrOk, bufferSize, threadFound, target).None? ==>
        result == fileResult &&
        request == Some((Wrap64(startOffset + old(seekPosition)), Min(bytesToTransfer, bufferSize) as u64)) &&
        seekPosition == Wrap64(old(seekPosition) + transferred)
    {
      request := None;
      if !bufferOk {
        result := InvalidParam;
      } else if !outPtrOk {
        result := InvalidParam;
      } else if bufferSize == 0 {
        result := InvalidParam;
      } else if !threadFound {
        result := InvalidOp;
      } else if target == NoObject {
        result := InvalidParam;
      } else if target == WrongKind {
        result := InvalidOp;
      } else {
        var length := bytesToTransfer;
        if length > bufferSize {
          length := bufferSize;
        }
        request := Some((Wrap64(startOffset + seekPosition), length));
        result := fileResult;
        seekPosition := Wrap64(seekPosition + transferred);
      }
    }

    /** syscall_seek_handle once the thread, the out-pointer and the handle
        have been checked: sizeResult is what get_file_size reports. On
        success the position moves and is reported; otherwise it stays. */
    method Seek(offset: i64, dir: SeekDir, sizeResult: Result<u64>) returns (result: ErrCode, newOffset: Option<u64>)
      modifies this
      ensures sizeResult.Err? ==> result == sizeResult.code && newOffset.None? && seekPosition == old(seekPosition)
      ensures sizeResult.Ok? ==>
        match SeekResult(dir, offset, sizeResult.value, old(seekPosition))
        case Ok(p) => result == NoError && newOffset == Some(p) && seekPosition == p
        case Err(e) => result == e && newOffset.None? && seekPosition == old(seekPosition)
    {
      newOffset := None;
      match sizeResult
      case Err(e) => { result := e; }
      case Ok(size) => {
        var proposed: u64 := 0;
        result := NoError;
        match dir {
          case FromStart => proposed := Wrap64(offset);
          case FromEnd => proposed := Wrap64(size - offset);
          case FromCur => proposed := Wrap64(seekPosition + offset);
          case Invalid => result := InvalidParam;
        }
        if result == NoError {
          if proposed <= size {
            seekPosition := proposed;
            newOffset := Some(proposed);
          } else {
            result := OutOfRange;
          }
        }
      }
    }
  }
}
