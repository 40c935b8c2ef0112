/**
 The input and output buffer (arale/net/Buffer.h, arale/net/Buffer.cc): a byte vector and two
 indices that together hold a byte sequence.
 */
module Buffer {
  import opened Bytes

  const CHEAP_PREPEND: nat := 8
  const INITIAL_SIZE: nat := 1024
  const EXTRA_SIZE: nat := 65535  // the second area that readFd reads into

  /** Whether `makeSpace` moves the data to the front instead of growing the vector. */
  predicate MovesData(form: Form, size: nat, readIndex: nat, writeIndex: nat, len: nat)
    requires readIndex <= writeIndex <= size
  {
    match form
    case AsWritten => size - writeIndex + CHEAP_PREPEND >= len
    case Intended => size - writeIndex + readIndex >= len + CHEAP_PREPEND
  }

  /** Whether the assert in `ensureWritableBytes` holds: there is room, the vector grows, or moving the
      data to the front makes room. The guard as written does not look at the room in front. */
  predicate AppendFits(form: Form, size: nat, readIndex: nat, writeIndex: nat, len: nat)
    requires readIndex <= writeIndex <= size
  {
    || size - writeIndex >= len
    || !MovesData(form, size, readIndex, writeIndex, len)
    || size - writeIndex + readIndex >= len + CHEAP_PREPEND
  }

  /** What std::copy needs to move the data to the front: the target must not lie inside the source. */
  predicate CopyDefined(readIndex: nat, writeIndex: nat) {
    !(readIndex <= CHEAP_PREPEND < writeIndex)
  }

  /** Compaction for an append that fits moves the data to the left, which std::copy can do. */
  lemma MovesLeft(form: Form, size: nat, readIndex: nat, writeIndex: nat, len: nat)
    requires readIndex <= writeIndex <= size
    requires size - writeIndex < len && MovesData(form, size, readIndex, writeIndex, len)
    ensures AppendFits(form, size, readIndex, writeIndex, len) ==> readIndex > CHEAP_PREPEND
    ensures readIndex > CHEAP_PREPEND ==> CopyDefined(readIndex, writeIndex)
  {
  }

  /** So it always does with the intended guard. */
  lemma IntendedMovesLeft(size: nat, readIndex: nat, writeIndex: nat, len: nat)
    requires readIndex <= writeIndex <= size
    requires size - writeIndex < len && MovesData(Intended, size, readIndex, writeIndex, len)
    ensures readIndex > CHEAP_PREPEND && CopyDefined(readIndex, writeIndex)
  {
    IntendedAlwaysFits(size, readIndex, writeIndex, len);
    MovesLeft(Intended, size, readIndex, writeIndex, len);
  }

  /** With the intended guard there is always room. */
  lemma IntendedAlwaysFits(size: nat, readIndex: nat, writeIndex: nat, len: nat)
    requires readIndex <= writeIndex <= size
    ensures AppendFits(Intended, size, readIndex, writeIndex, len)
  {
  }

  /** As written, an append to a fresh buffer finds no room exactly for 1025 to 1032 bytes. */
  lemma FreshBufferMisses(len: nat)
    ensures AppendFits(AsWritten, CHEAP_PREPEND + INITIAL_SIZE, CHEAP_PREPEND, CHEAP_PREPEND, len)
            <==> !(1025 <= len <= 1032)
  {
  }

  /** As written, the misses of any buffer are the lengths just above the writable space. */
  lemma MissesAreJustAboveWritable(size: nat, readIndex: nat, writeIndex: nat, len: nat)
    requires readIndex <= writeIndex <= size
    ensures AppendFits(AsWritten, size, readIndex, writeIndex, len) <==>
            var excess := len - (size - writeIndex);
            excess <= 0 || excess > CHEAP_PREPEND || excess + CHEAP_PREPEND <= readIndex
  {
  }

  /** Whether `readFd` gets `n` delivered bytes into a buffer with these indices. */
  predicate ReadFits(form: Form, size: nat, readIndex: nat, writeIndex: nat, n: nat)
    requires readIndex <= writeIndex <= size
  {
    n <= size - writeIndex || AppendFits(form, size, readIndex, size, n - (size - writeIndex))
  }

  /** As written, a read into a fresh buffer ends the program exactly when 1025 to 1032 bytes arrive. */
  lemma FreshReadMisses(n: nat)
    ensures ReadFits(AsWritten, CHEAP_PREPEND + INITIAL_SIZE, CHEAP_PREPEND, CHEAP_PREPEND, n)
            <==> !(1025 <= n <= 1032)
  {
  }

  class Buffer {
    const form: Form  // the guard of makeSpace
    var buffer: array<byte>
    var readIndex: nat
    var writeIndex: nat

    ghost predicate Valid()
      reads this
    {
      CHEAP_PREPEND <= buffer.Length && readIndex <= writeIndex <= buffer.Length
    }

    /** The bytes that have been written and not yet retrieved. */
    ghost function Contents(): (s: seq<byte>)
      requires Valid()
      reads this, buffer
      ensures |s| == writeIndex - readIndex
    {
      buffer[readIndex..writeIndex]
    }

    predicate Fits(len: nat)
      requires Valid()
      reads this
    {
      AppendFits(form, buffer.Length, readIndex, writeIndex, len)
    }

    constructor (form: Form)
      ensures Valid() && fresh(buffer) && Contents() == []
      ensures this.form == form && readIndex == CHEAP_PREPEND
      ensures buffer.Length == CHEAP_PREPEND + INITIAL_SIZE == 1032 && writeIndex == CHEAP_PREPEND == 8
    {
      this.form := form;
      buffer := new byte[CHEAP_PREPEND + INITIAL_SIZE](_ => 0);
      readIndex := CHEAP_PREPEND;
      writeIndex := CHEAP_PREPEND;
    }

    // ---- Reading ----

    function ReadableBytes(): (n: nat)
      requires Valid()
      reads this
    {
      writeIndex - readIndex
    }

    function WritableBytes(): (n: nat)
      requires Valid()
      reads this
    {
      buffer.Length - writeIndex
    }

    method RetrieveAll()
      requires Valid()
      modifies this`readIndex, this`writeIndex
      ensures Valid() && Contents() == []
      ensures readIndex == writeIndex == CHEAP_PREPEND
    {
      readIndex := CHEAP_PREPEND;
      writeIndex := CHEAP_PREPEND;
    }

    method Retrieve(len: nat)
      requires Valid() && len <= |Contents()|
      modifies this`readIndex, this`writeIndex
      ensures Valid() && Contents() == old(Contents())[len..]
      ensures if len < |old(Contents())| then readIndex == old(readIndex) + len && writeIndex == old(writeIndex)
              else readIndex == writeIndex == 8
    {
      if len < ReadableBytes() {
        readIndex := readIndex + len;
      } else {
        RetrieveAll();
      }
    }

    method RetrieveAsString(len: nat) returns (result: seq<byte>)
      requires Valid() && len <= |Contents()|
      modifies this`readIndex, this`writeIndex
      ensures Valid() && result == old(Contents())[..len] && Contents() == old(Contents())[len..]
    {
      result := buffer[readIndex..readIndex + len];
      Retrieve(len);
    }

    /** The first `len` readable bytes, which stay in the buffer. */
    method Peek(len: nat) returns (bytes: seq<byte>)
      requires Valid() && len <= |Contents()|
      ensures bytes == Contents()[..len]
    {
      bytes := buffer[readIndex..readIndex + len];
    }

    /** `peekInt8` to `peekInt64`. */
    method PeekInt(width: nat) returns (x: int)
      requires Valid() && width <= |Contents()|
      ensures x == Decode(Contents()[..width])
    {
      var bytes := Peek(width);
      x := Decode(bytes);
    }

    /** `readInt8` to `readInt64`. */
    method ReadInt(width: nat) returns (x: int)
      requires Valid() && width <= |Contents()|
      modifies this`readIndex, this`writeIndex
      ensures Valid() && x == Decode(old(Contents())[..width]) && Contents() == old(Contents())[width..]
    {
      x := PeekInt(width);
      Retrieve(width);
    }

    method RetrieveUntil(end: nat)
      requires Valid() && end <= |Contents()|
      modifies this`readIndex, this`writeIndex
      ensures Valid() && Contents() == old(Contents())[end..]
    {
      Retrieve(end);
    }

    /** `std::search` for CR LF. The position is relative to `peek()`; None is the null pointer. */
    method FindCRLF() returns (r: Position)
      requires Valid()
      ensures r == FirstCRLF(Contents())
    {
      var i := 0;
      while i + 1 < ReadableBytes()
        invariant 0 <= i <= ReadableBytes()
        invariant FirstCRLF(Contents()) == FirstCRLF(Contents()[i..]).Shift(i)
      {
        if buffer[readIndex + i] == CR && buffer[readIndex + i + 1] == LF {
          return At(i);
        }
        assert Contents()[i..][1..] == Contents()[i + 1..];
        i := i + 1;
      }
      r := None;
    }

    // ---- Writing ----

    /** Returns false if the move to the front would write past the end of the vector, or over data still to move. */
    method MakeSpace(len: nat) returns (ok: bool)
      requires Valid() && len > WritableBytes()
      modifies this`buffer, this`readIndex, this`writeIndex, buffer
      ensures Valid() && Contents() == old(Contents())
      ensures buffer == old(buffer) || fresh(buffer)
      ensures ok && WritableBytes() >= len <==> old(Fits(len))
      ensures ok && old(MovesData(form, buffer.Length, readIndex, writeIndex, len)) ==>
                buffer == old(buffer) && readIndex == CHEAP_PREPEND && old(CopyDefined(readIndex, writeIndex))
      ensures ok && WritableBytes() >= len && old(MovesData(form, buffer.Length, readIndex, writeIndex, len)) ==>
                old(readIndex) > CHEAP_PREPEND
      ensures !old(MovesData(form, buffer.Length, readIndex, writeIndex, len)) ==>
                ok && readIndex == old(readIndex) && writeIndex == old(writeIndex) && buffer.Length == writeIndex + len
      ensures !ok ==> readIndex == old(readIndex)
    {
      ok := true;
      var moves := match form
        case AsWritten => WritableBytes() + CHEAP_PREPEND >= len
        case Intended => WritableBytes() + readIndex >= len + CHEAP_PREPEND;
      if moves {
        MovesLeft(form, buffer.Length, readIndex, writeIndex, len);
        if CHEAP_PREPEND + ReadableBytes() > buffer.Length || !CopyDefined(readIndex, writeIndex) {
          return false;
        }
        MoveToFront();
      } else {
        Grow(writeIndex + len);
      }
    }

    /** `std::copy`, first byte first, of the readable bytes to the end of the cheap prepend area. */
    method MoveToFront()
      requires Valid() && CHEAP_PREPEND + |Contents()| <= buffer.Length && CopyDefined(readIndex, writeIndex)
      modifies this`readIndex, this`writeIndex, buffer
      ensures Valid() && Contents() == old(Contents()) && readIndex == CHEAP_PREPEND
    {
      ghost var source := Contents();
      var copylen := ReadableBytes();
      var i := 0;
      while i < copylen
        invariant 0 <= i <= copylen && readIndex == old(readIndex) && writeIndex == old(writeIndex)
        invariant forall j :: CHEAP_PREPEND <= j < CHEAP_PREPEND + i ==> buffer[j] == source[j - CHEAP_PREPEND]
        invariant forall j :: readIndex + i <= j < writeIndex ==> buffer[j] == source[j - readIndex]
      {
        buffer[CHEAP_PREPEND + i] := buffer[readIndex + i];
        i := i + 1;
      }
      readIndex := CHEAP_PREPEND;
      writeIndex := readIndex + copylen;
    }

    /** `resize` to a larger size. */
    method Grow(size: nat)
      requires Valid() && size >= buffer.Length
      modifies this`buffer
      ensures Valid() && Contents() == old(Contents()) && fresh(buffer) && buffer.Length == size
    {
      var grown := new byte[size](_ => 0);
      forall k | 0 <= k < writeIndex { grown[k] := buffer[k]; }
      buffer := grown;
    }

    /** Returns whether the final assert holds. */
    method EnsureWritableBytes(len: nat) returns (ok: bool)
      requires Valid()
      modifies this`buffer, this`readIndex, this`writeIndex, buffer
      ensures Valid() && Contents() == old(Contents())
      ensures buffer == old(buffer) || fresh(buffer)
      ensures ok == old(Fits(len)) && (ok ==> WritableBytes() >= len)
      ensures old(WritableBytes()) >= len ==>
                buffer == old(buffer) && readIndex == old(readIndex) && writeIndex == old(writeIndex)
      ensures old(readIndex) >= CHEAP_PREPEND ==> readIndex >= CHEAP_PREPEND
    {
      ok := true;
      if WritableBytes() < len {
        ok := MakeSpace(len);
      }
      ok := ok && WritableBytes() >= len;
    }

    /** A copy to `beginWrite()` followed by `hasWritten`. */
    method Write(data: seq<byte>)
      requires Valid() && |data| <= WritableBytes()
      modifies this`writeIndex, buffer
      ensures Valid() && Contents() == old(Contents()) + data && writeIndex == old(writeIndex) + |data|
    {
      forall k | 0 <= k < |data| { buffer[writeIndex + k] := data[k]; }
      writeIndex := writeIndex + |data|;
    }

    /** Appends, or returns false where the assert in `ensureWritableBytes` ends the program. */
    method Append(data: seq<byte>) returns (ok: bool)
      requires Valid()
      modifies this`buffer, this`readIndex, this`writeIndex, buffer
      ensures Valid() && (buffer == old(buffer) || fresh(buffer))
      ensures ok == old(Fits(|data|))
      ensures Contents() == if ok then old(Contents()) + data else old(Contents())
      ensures old(readIndex) >= CHEAP_PREPEND ==> readIndex >= CHEAP_PREPEND
    {
      ok := EnsureWritableBytes(|data|);
      if ok {
        Write(data);
      }
    }

    /** `appendInt8` to `appendInt64`. */
    method AppendInt(x: int, width: nat) returns (ok: bool)
      requires Valid() && FitsSigned(x, width)
      modifies this`buffer, this`readIndex, this`writeIndex, buffer
      ensures Valid() && (buffer == old(buffer) || fresh(buffer))
      ensures ok == old(Fits(width))
      ensures ok ==> |Contents()| >= width && Contents()[..|Contents()| - width] == old(Contents())
      ensures ok ==> Decode(Contents()[|Contents()| - width..]) == x
    {
      ok := Append(Encode(x, width));
      IntRoundTrip(x, width);
    }

    method Prepend(data: seq<byte>)
      requires Valid() && |data| <= readIndex
      modifies this`readIndex, buffer
      ensures Valid() && Contents() == data + old(Contents())
      ensures readIndex == old(readIndex) - |data|
    {
      readIndex := readIndex - |data|;
      forall k | 0 <= k < |data| { buffer[readIndex + k] := data[k]; }
    }

    /** `prependInt8` to `prependInt64`. */
    method PrependInt(x: int, width: nat)
      requires Valid() && width <= readIndex && FitsSigned(x, width)
      modifies this`readIndex, buffer
      ensures Valid() && |Contents()| >= width && Contents()[width..] == old(Contents())
      ensures Decode(Contents()[..width]) == x && Contents()[..width] == Encode(x, width)
    {
      Prepend(Encode(x, width));
      IntRoundTrip(x, width);
    }

    /** Whether `readFd` gets `n` delivered bytes into the buffer. */
    predicate FitsRead(n: nat)
      requires Valid()
      reads this
    {
      ReadFits(form, buffer.Length, readIndex, writeIndex, n)
    }

    /** `readFd`: `input` is what readv delivers, first into the writable space, then into the extra area.
        Returns false where the assert under `append` ends the program. */
    method ReadFd(input: seq<byte>) returns (ok: bool)
      requires Valid() && |input| <= WritableBytes() + EXTRA_SIZE
      modifies this`buffer, this`readIndex, this`writeIndex, buffer
      ensures Valid() && (buffer == old(buffer) || fresh(buffer))
      ensures ok == old(FitsRead(|input|))
      ensures ok ==> Contents() == old(Contents()) + input
      ensures old(readIndex) >= CHEAP_PREPEND ==> readIndex >= CHEAP_PREPEND
    {
      hide AppendFits;
      var writable := WritableBytes();
      ok := true;
      if |input| <= writable {
        Write(input);
      } else {
        ok := WriteBoth(input[..writable], input[writable..]);
        assert input == input[..writable] + input[writable..];
      }
    }

    /** The part that filled the writable space, and the append of the part in the extra area. */
    method WriteBoth(first: seq<byte>, extra: seq<byte>) returns (ok: bool)
      requires Valid() && |first| == WritableBytes()
      modifies this`buffer, this`readIndex, this`writeIndex, buffer
      ensures Valid() && (buffer == old(buffer) || fresh(buffer))
      ensures ok == old(AppendFits(form, buffer.Length, readIndex, buffer.Length, |extra|))
      ensures ok ==> Contents() == old(Contents()) + (first + extra)
      ensures old(readIndex) >= CHEAP_PREPEND ==> readIndex >= CHEAP_PREPEND
    {
      hide AppendFits;
      ghost var fits := AppendFits(form, buffer.Length, readIndex, buffer.Length, |extra|);
      Write(first);
      ghost var written := Contents();
      assert writeIndex == buffer.Length && Fits(|extra|) == fits;
      ok := Append(extra);
      assert ok ==> Contents() == written + extra;
      assert old(Contents()) + first + extra == old(Contents()) + (first + extra);
    }
  }

  /** As written, a state in which an append of 10 bytes copies over data still to move: 1020 bytes behind a 4-byte
      header. */
  method OverlappingMove(data: seq<byte>, header: seq<byte>) returns (buf: Buffer)
    requires |data| == 1020 && |header| == 4
    ensures fresh(buf) && buf.Valid() && buf.form.AsWritten? && buf.Contents() == header + data
    ensures buf.WritableBytes() < 10 && MovesData(AsWritten, buf.buffer.Length, buf.readIndex, buf.writeIndex, 10)
    ensures !CopyDefined(buf.readIndex, buf.writeIndex)
  {
    buf := new Buffer(AsWritten);
    buf.Write(data);
    assert buf.Contents() == [] + data == data;
    buf.Prepend(header);
  }

  // ---- CR LF ----

  datatype Position = None | At(index: nat) {
    function Shift(n: nat): Position {
      match this
      case None => None
      case At(i) => At(i + n)
    }
  }

  predicate CRLFAt(s: seq<byte>, i: nat) {
    i + 1 < |s| && s[i] == CR && s[i + 1] == LF
  }

  /** The position of the first CR LF pair. */
  function FirstCRLF(s: seq<byte>): (r: Position)
    ensures r.At? ==> CRLFAt(s, r.index)
  {
    if |s| < 2 then None
    else if CRLFAt(s, 0) then At(0)
    else FirstCRLF(s[1..]).Shift(1)
  }

  lemma {:induction false} FirstCRLFIsFirst(s: seq<byte>, i: nat)
    ensures FirstCRLF(s) == At(i) <==> CRLFAt(s, i) && forall k: nat :: k < i ==> !CRLFAt(s, k)
    ensures FirstCRLF(s) == None <==> forall k: nat :: !CRLFAt(s, k)
  {
    if |s| >= 2 && !CRLFAt(s, 0) {
      var t := s[1..];
      assert forall k: nat :: k > 0 ==> (CRLFAt(s, k) <==> CRLFAt(t, k - 1));
      assert forall k: nat :: CRLFAt(t, k) <==> CRLFAt(s, k + 1);
      FirstCRLFIsFirst(t, if i > 0 then i - 1 else 0);
    }
  }

  /** The same in bytes: position i is found exactly if 13 and 10 stand there and not together before. */
  lemma FirstCRLFInBytes(s: seq<byte>, i: nat)
    ensures FirstCRLF(s) == At(i) <==>
            && i + 1 < |s| && s[i] == 13 && s[i + 1] == 10
            && forall k: nat :: k < i ==> !(s[k] == 13 && s[k + 1] == 10)
  {
    FirstCRLFIsFirst(s, i);
    assert i + 1 < |s| ==> forall k: nat :: k < i ==> (CRLFAt(s, k) <==> s[k] == 13 && s[k + 1] == 10);
  }

  /** Bytes that arrive later do not move the first pair, and a pair that they complete is at the seam or after it. */
  lemma {:induction false} FirstCRLFAppend(s: seq<byte>, more: seq<byte>)
    ensures FirstCRLF(s).At? ==> FirstCRLF(s + more) == FirstCRLF(s)
    ensures FirstCRLF(s).None? && FirstCRLF(s + more).At? ==> FirstCRLF(s + more).index + 2 > |s|
  {
    if |s| >= 2 && !CRLFAt(s, 0) {
      FirstCRLFAppend(s[1..], more);
      assert (s + more)[1..] == s[1..] + more;
      assert !CRLFAt(s + more, 0);
    }
  }
}
