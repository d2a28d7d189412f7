/** `Mp3File`: an ID3v2 tag scanner over the bytes of a memory-mapped file.
    The buffer's contents never change; what changes is the buffer's read
    position and the object's frame pointer, step by step as in the source.
    Each method that performs a step of the scan is proved to agree with the
    function of module `TagScan` that says what that step computes; the buffer
    primitives `MovePosition`, `Get` and `GetBytes` are specified directly by
    the bytes and positions they produce. */
module Mp3Files {
  import opened JavaRuntime
  import Synchsafe
  import opened AttributeFrames
  import opened TagScan

  class Mp3File {
    /** The mapped file; its capacity and limit are both `|buffer|`. */
    const buffer: seq<Byte>
    /** Whether the file starts with the magic "ID3". */
    const isMp3File: bool
    /** Offset of the current frame. */
    var framePointer: int
    /** The buffer's read position. */
    var position: int

    ghost predicate Valid()
      reads this
    {
      |buffer| <= MaxCapacity &&
      0 <= position <= |buffer| &&
      FrameHeaderLength <= framePointer &&
      (framePointer == FrameHeaderLength || framePointer < |buffer|) &&
      isMp3File == HasMagic(buffer)
    }

    /** `new Mp3File(path)` once the file is mapped to `contents`: the magic
        check of `openBuffer`.  A file shorter than three bytes has no tag;
        otherwise its first three bytes decide. */
    constructor (contents: seq<Byte>)
      requires |contents| <= MaxCapacity
      ensures Valid() && buffer == contents
      ensures framePointer == FrameHeaderLength && position == 0
    {
      buffer := contents;
      framePointer := 10;
      position := 0;
      if |contents| < 3 {
        isMp3File := false;
      } else {
        isMp3File := contents[0] == 0x49 && contents[1] == 0x44 && contents[2] == 0x33;
        assert contents[..3] == [contents[0], contents[1], contents[2]];
      }
    }

    // ------------------------------------------------------------ the buffer

    /** `movePosition(p)`, that is `buffer.position(p)`: rejects a position
        outside [0, limit]. */
    method MovePosition(p: int) returns (r: Result<()>)
      requires Valid()
      modifies this`position
      ensures Valid()
      ensures r.Ok? <==> 0 <= p <= |buffer|
      ensures r.Throw? ==> r.exception == IllegalArgumentException
      ensures position == if r.Ok? then p else old(position)
    {
      if p < 0 || p > |buffer| {
        return Throw(IllegalArgumentException);
      }
      position := p;
      return Ok(());
    }

    /** `buffer.get()`: the byte at the read position, which then moves on. */
    method Get() returns (r: Result<Byte>)
      requires Valid()
      modifies this`position
      ensures Valid()
      ensures r == if old(position) < |buffer| then Ok(buffer[old(position)]) else Throw(BufferUnderflowException)
      ensures position == if r.Ok? then old(position) + 1 else old(position)
    {
      if position >= |buffer| {
        return Throw(BufferUnderflowException);
      }
      r := Ok(buffer[position]);
      position := position + 1;
    }

    /** `buffer.get(dst)` into an array of `n` bytes: all of them or, when
        fewer remain, none and an exception. */
    method GetBytes(n: nat) returns (r: Result<seq<Byte>>)
      requires Valid()
      modifies this`position
      ensures Valid()
      ensures r == if old(position) + n <= |buffer| then Ok(buffer[old(position)..old(position) + n])
                   else Throw(BufferUnderflowException)
      ensures position == if r.Ok? then old(position) + n else old(position)
    {
      if n > |buffer| - position {
        return Throw(BufferUnderflowException);
      }
      r := Ok(buffer[position..position + n]);
      position := position + n;
    }

    // ------------------------------------------------------------ sizes

    /** `readUnsynchedIntegerStartingFrom(pos)`: reads the four bytes at `pos`
        and puts the read position back, unless a read throws. */
    method ReadUnsynchedIntegerStartingFrom(pos: int) returns (r: Result<int>)
      requires Valid()
      modifies this`position
      ensures Valid()
      ensures r == ReadSynchsafe(buffer, pos)
      ensures r.Ok? ==> position == old(position)
      ensures r.Throw? ==>
        position == if r.exception == BufferUnderflowException then |buffer| else old(position)
    {
      if pos < 3 {
        return Throw(IllegalStateException);
      }
      var saved := position;
      var _ :- MovePosition(pos);
      var b0 :- Get();
      var b1 :- Get();
      var b2 :- Get();
      var b3 :- Get();
      var result := Synchsafe.Decode(b0, b1, b2, b3);
      var restored := MovePosition(saved);
      assert restored.Ok?;
      return Ok(result);
    }

    /** `readLengthOfCurrentFrame`: the size field of the current frame. */
    method ReadLengthOfCurrentFrame() returns (r: Result<int>)
      requires Valid()
      modifies this`position
      ensures Valid()
      ensures r == FrameLength(buffer, framePointer)
      ensures r.Ok? ==> position == old(position)
    {
      assert framePointer + 4 <= IntMax;
      r := ReadUnsynchedIntegerStartingFrom(framePointer + 4);
    }

    /** `getMp3HeaderLength`: the tag size, and an exception without a tag. */
    method GetMp3HeaderLength() returns (r: Result<int>)
      requires Valid()
      modifies this`position
      ensures Valid()
      ensures r == HeaderLength(buffer)
      ensures r.Ok? ==> position == old(position)
    {
      if !isMp3File {
        return Throw(IllegalArgumentException);
      }
      r := ReadUnsynchedIntegerStartingFrom(6);
    }

    /** `hasMp3Header`: the buffer holds at least three bytes and they spell
        "ID3"; never an exception. */
    function HasMp3Header(): (r: bool)
      reads this
      requires Valid()
      ensures r <==> |buffer| >= 3 && Latin1Decode(buffer[..3]) == "ID3"
    {
      assert Latin1Decode(Magic) == "ID3";
      isMp3File
    }

    // ------------------------------------------------------------ the cursor

    /** `movePositionToFirstFrame`: the frame pointer is reset even when the
        buffer is too short to move the read position to it. */
    method MovePositionToFirstFrame() returns (r: Result<()>)
      requires Valid()
      modifies this`framePointer, this`position
      ensures Valid()
      ensures framePointer == FrameHeaderLength
      ensures r.Ok? <==> FrameHeaderLength <= |buffer|
      ensures r.Throw? ==> r.exception == IllegalArgumentException
      ensures position == if r.Ok? then FrameHeaderLength else old(position)
    {
      framePointer := 10;
      r := MovePosition(framePointer);
    }

    /** `findNextFrame`: hop over the current frame, or go back to the first
        frame when the hop would leave the buffer. */
    method FindNextFrame() returns (r: Result<bool>)
      requires Valid()
      modifies this`framePointer, this`position
      ensures Valid()
      ensures r == NextFrame(buffer, old(framePointer)).outcome
      ensures framePointer == NextFrame(buffer, old(framePointer)).framePointer
      ensures r.Ok? ==> position == if framePointer == FrameHeaderLength then FrameHeaderLength else old(position)
    {
      var frameLength :- ReadLengthOfCurrentFrame();
      var len := frameLength + FrameHeaderLength;
      assert framePointer + len <= IntMax;
      if !IsValidPosition(framePointer, len, |buffer|) {
        var moved := MovePosition(10);
        assert moved.Ok?;
        framePointer := 10;
        return Ok(false);
      }
      framePointer := framePointer + len;
      assert framePointer + (framePointer + FrameHeaderLength + 1) <= IntMax;
      return Ok(IsValidPosition(framePointer, framePointer + FrameHeaderLength + 1, |buffer|));
    }

    /** `bytesFitToBuffer(bytes)`: compare the identifier of the current frame
        with `bytes`, byte by byte, stopping at the first difference. */
    method BytesFitToBuffer(bytes: seq<Byte>) returns (r: Result<bool>)
      requires Valid()
      modifies this`position
      ensures Valid()
      ensures r == BytesFit(buffer, framePointer, bytes)
      ensures r == Ok(true) ==> position == framePointer + |bytes|
    {
      var _ :- MovePosition(framePointer);
      for i := 0 to |bytes|
        invariant Valid()
        invariant position == framePointer + i
        invariant forall k :: 0 <= k < i ==> buffer[framePointer + k] == bytes[k]
        invariant BytesFit(buffer, framePointer, bytes) == MatchFrom(buffer, framePointer, bytes, i)
      {
        var b :- Get();
        if b != bytes[i] {
          return Ok(false);
        }
      }
      return Ok(true);
    }

    /** `moveToFrame(name)`: from the first frame, hop until a frame carries
        `name` or `findNextFrame` reports no more frames. */
    method MoveToFrame(name: seq<Byte>) returns (r: Result<bool>)
      requires Valid()
      modifies this`framePointer, this`position
      ensures Valid()
      ensures r == FindFrame(buffer, name).outcome
      ensures framePointer == FindFrame(buffer, name).framePointer
    {
      var _ :- MovePositionToFirstFrame();
      while true
        invariant Valid()
        invariant framePointer <= |buffer|
        invariant ScanFrom(buffer, framePointer, name) == FindFrame(buffer, name)
        decreases |buffer| - framePointer
      {
        var fits :- BytesFitToBuffer(name);
        if fits {
          return Ok(true);
        }
        var more :- FindNextFrame();
        if !more {
          return Ok(false);
        }
      }
    }

    // ------------------------------------------------------------ content

    /** `readEncoding`: the charset named by the byte at `framePointer + 10`;
        the read position is left on that byte. */
    method ReadEncoding() returns (r: Result<Charset>)
      requires Valid()
      modifies this`position
      ensures Valid()
      ensures r == EncodingAt(buffer, framePointer)
      ensures r.Ok? ==> r.value == CharsetOf(buffer[framePointer + FrameHeaderLength])
      ensures r.Ok? ==> position == framePointer + FrameHeaderLength
    {
      var _ :- MovePosition(framePointer + FrameHeaderLength);
      var result := ISO_8859_1;
      var b :- Get();
      if b == 0x03 {
        result := UTF_8;
      } else if b == 0x01 {
        result := UTF_16;
      }
      var back := MovePosition(framePointer + FrameHeaderLength);
      assert back.Ok?;
      return Ok(result);
    }

    /** `readContentOfCurrentFrame`: the trimmed content of the current frame
        with the charset its first byte names. */
    method ReadContentOfCurrentFrame() returns (r: Result<Text>)
      requires Valid()
      modifies this`position
      ensures Valid()
      ensures r == FrameContent(buffer, framePointer)
    {
      var len :- ReadLengthOfCurrentFrame();
      if len <= 2 {
        return Ok(EmptyText);
      }
      var encoding :- ReadEncoding();
      FrameContentAfterEncoding(buffer, framePointer, len, encoding);
      var content :- GetBytes(len);
      var (start, last) := TrimBounds(content);
      var payload := Wrap(content, start, last).value;
      assert Text(encoding, payload) == Trimmed(encoding, content);
      return Ok(Text(encoding, payload));
    }

    // ------------------------------------------------------------ queries

    /** `getMp3Attribute(tflt)`: the attribute's text, empty when there is no
        tag or no frame carries it.  The result depends on the file alone, not
        on where earlier calls left the cursor. */
    method GetMp3Attribute(tflt: AttributeFrame) returns (r: Result<Text>)
      requires Valid()
      modifies this`framePointer, this`position
      ensures Valid()
      ensures r == Attribute(buffer, tflt)
      ensures framePointer == if isMp3File then FindFrame(buffer, tflt.Bytes()).framePointer else old(framePointer)
    {
      if !isMp3File {
        return Ok(EmptyText);
      }
      var found :- MoveToFrame(tflt.Bytes());
      if found {
        r := ReadContentOfCurrentFrame();
        return;
      }
      return Ok(EmptyText);
    }

    /** `getMp3AttributeForKey(key)`, with `None` for a null key. */
    method GetMp3AttributeForKey(key: Option<string>) returns (r: Result<Text>)
      requires Valid()
      modifies this`framePointer, this`position
      ensures Valid()
      ensures r == AttributeForKey(buffer, key)
      ensures forall f: AttributeFrame :: key == Some(f.Name()) && isMp3File ==>
        framePointer == FindFrame(buffer, f.Bytes()).framePointer
      ensures key.None? || key.value == "" || ValueOf(key.value).Throw? ==> framePointer == old(framePointer)
      ensures !isMp3File ==> framePointer == old(framePointer)
    {
      if key.None? || key.value == "" {
        return Throw(NullPointerException);
      }
      // `valueOf` throws for an unknown name, so it never yields null
      var attribute :- ValueOf(key.value);
      ValueOfName(attribute);
      r := GetMp3Attribute(attribute);
    }

    /** `getNameOfCurrentFrame`: the current frame's identifier; the read
        position is put back. */
    method GetNameOfCurrentFrame() returns (r: Result<string>)
      requires Valid()
      modifies this`position
      ensures Valid()
      ensures r == CurrentFrameName(buffer, framePointer)
      ensures r.Ok? ==> position == old(position)
    {
      if !isMp3File {
        return Ok("");
      }
      var saved := position;
      var _ :- MovePosition(framePointer);
      var b :- GetBytes(4);
      var restored := MovePosition(saved);
      assert restored.Ok?;
      return Ok(Latin1Decode(b));
    }
  }

  /** Asking twice for the same attribute gives the same answer: every lookup
      starts again from the first frame. */
  method LookupIsRepeatable(file: Mp3File, key: AttributeFrame) returns (first: Result<Text>, second: Result<Text>)
    requires file.Valid()
    modifies file
    ensures first == second
  {
    first := file.GetMp3Attribute(key);
    second := file.GetMp3Attribute(key);
  }
}
