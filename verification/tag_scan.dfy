/** What the ID3v2 tag scanner computes, as functions of the file's bytes and
    of the frame pointer.  The `Mp3File` class in module `Mp3Files` performs the
    same steps on its mutable state and is proved to agree with these functions;
    the lemmas here state what the scan promises.

    Layout read (section 3.1 and section 4 of the ID3v2.4.0 structure document):
    bytes 0-2 "ID3", bytes 6-9 the synchsafe tag size, then frames from byte 10,
    each a 4-byte identifier, a 4-byte size, 2 flag bytes and `size` content
    bytes whose first byte names the text encoding. */
module TagScan {
  import opened JavaRuntime
  import Synchsafe
  import opened AttributeFrames

  /** Length of a frame header, and offset of the first frame. */
  const FrameHeaderLength: int := 10

  /** The largest buffer the model admits: with `framePointer < capacity <=
      MaxCapacity`, every int sum the scanner forms, `2 * framePointer + 11`
      being the largest, stays below 2^31, so no Java arithmetic wraps around. */
  const MaxCapacity: int := 0x3FFF_FFFA

  /** "ID3", the tag's magic bytes. */
  const Magic: seq<Byte> := [0x49, 0x44, 0x33]

  /** The buffer starts with a tag: three bytes suffice. */
  predicate HasMagic(buf: seq<Byte>)
  {
    |buf| >= |Magic| && buf[..|Magic|] == Magic
  }

  // ---------------------------------------------------------------- sizes

  /** `readUnsynchedIntegerStartingFrom(pos)`: the synchsafe value of the four
      bytes at `pos`, or the exception the buffer raises. */
  function ReadSynchsafe(buf: seq<Byte>, pos: int): (r: Result<int>)
    ensures r.Ok? <==> 3 <= pos && pos + 4 <= |buf|
    ensures r.Ok? ==> 0 <= r.value < 0x1000_0000
    ensures r.Ok? ==> r.value == Synchsafe.Decode(buf[pos], buf[pos + 1], buf[pos + 2], buf[pos + 3])
    ensures r.Throw? && pos < 3 ==> r.exception == IllegalStateException
  {
    if pos < 3 then Throw(IllegalStateException)
    else if pos > |buf| then Throw(IllegalArgumentException)
    else if pos + 4 > |buf| then Throw(BufferUnderflowException)
    else Ok(Synchsafe.Decode(buf[pos], buf[pos + 1], buf[pos + 2], buf[pos + 3]))
  }

  /** `readLengthOfCurrentFrame`: the size field of the frame at `fp`, always
      decoded as synchsafe, whatever the tag's version. */
  function FrameLength(buf: seq<Byte>, fp: int): (r: Result<int>)
    ensures r.Ok? <==> -1 <= fp && fp + 8 <= |buf|
    ensures r.Ok? ==> 0 <= r.value < 0x1000_0000
    ensures r.Ok? ==> r.value == Synchsafe.Decode(buf[fp + 4], buf[fp + 5], buf[fp + 6], buf[fp + 7])
  {
    ReadSynchsafe(buf, fp + 4)
  }

  /** `getMp3HeaderLength` on a buffer: the tag size at offset 6, and an
      `IllegalArgumentException` when there is no tag. */
  function HeaderLength(buf: seq<Byte>): (r: Result<int>)
    ensures r.Ok? <==> HasMagic(buf) && |buf| >= FrameHeaderLength
    ensures r.Ok? ==> 0 <= r.value < 0x1000_0000 && r.value == Synchsafe.Decode(buf[6], buf[7], buf[8], buf[9])
    ensures !HasMagic(buf) ==> r == Throw(IllegalArgumentException)
  {
    if !HasMagic(buf) then Throw(IllegalArgumentException) else ReadSynchsafe(buf, 6)
  }

  // ---------------------------------------------------------------- the cursor

  /** `isValidPosition(movePosition)` with the frame pointer passed in: the
      argument is added to the frame pointer before it is compared with the
      capacity. */
  predicate IsValidPosition(framePointer: int, movePosition: int, capacity: int)
    ensures IsValidPosition(framePointer, movePosition, capacity) <==>
      framePointer <= framePointer + movePosition < capacity
  {
    !(framePointer + movePosition >= capacity) && !(movePosition < 0)
  }

  /** Given the absolute offset `framePointer + 11` (a frame header and one
      byte past the pointer), `isValidPosition` adds the pointer a second time:
      it accepts only when twice the pointer plus 11 is below the capacity.
      That is stricter than "the offset lies in the buffer", and misses
      exactly the pointers with `fp + 11 < capacity <= 2 * fp + 11`. */
  lemma {:induction false} MoreFramesTestDoublesPointer(fp: int, capacity: int)
    requires fp >= FrameHeaderLength
    ensures IsValidPosition(fp, fp + FrameHeaderLength + 1, capacity) <==>
      2 * fp + FrameHeaderLength + 1 < capacity
    ensures IsValidPosition(fp, fp + FrameHeaderLength + 1, capacity) ==>
      fp + FrameHeaderLength + 1 < capacity
    ensures fp + FrameHeaderLength + 1 < capacity && !IsValidPosition(fp, fp + FrameHeaderLength + 1, capacity) <==>
      fp + FrameHeaderLength + 1 < capacity <= 2 * fp + FrameHeaderLength + 1
  {
  }

  /** Where `findNextFrame` leaves the frame pointer, and what it returns. */
  datatype Step = Step(outcome: Result<bool>, framePointer: int)

  /** `findNextFrame` from the frame at `fp`: hop by the frame's size plus 10
      when that lands inside the buffer, and report whether there is more; reset
      to the first frame and report no more otherwise.  The "more" test passes
      the new pointer plus 11 to `isValidPosition`, which adds the pointer once
      more, so it asks for `2 * next + 11 < capacity`. */
  function NextFrame(buf: seq<Byte>, fp: int): (s: Step)
    requires fp >= FrameHeaderLength
    ensures s.outcome.Ok? <==> fp + 8 <= |buf|
    ensures s.outcome.Throw? ==> s.framePointer == fp
    ensures s.outcome.Ok? ==>
      (s.framePointer == FrameHeaderLength && !s.outcome.value) ||
      (fp + FrameHeaderLength <= s.framePointer < |buf|)
    ensures s.outcome.Ok? && s.framePointer != FrameHeaderLength ==>
      s.framePointer == fp + FrameLength(buf, fp).value + FrameHeaderLength &&
      (s.outcome.value <==> 2 * s.framePointer + FrameHeaderLength + 1 < |buf|)
    ensures s.outcome.Ok? && s.framePointer == FrameHeaderLength ==>
      fp + FrameLength(buf, fp).value + FrameHeaderLength >= |buf|
    ensures s.outcome == Ok(true) ==> s.framePointer + FrameHeaderLength + 1 < |buf|
  {
    match FrameLength(buf, fp)
    case Throw(e) => Step(Throw(e), fp)
    case Ok(frameLength) =>
      var len := frameLength + FrameHeaderLength;
      if !IsValidPosition(fp, len, |buf|) then
        if |buf| < FrameHeaderLength then Step(Throw(IllegalArgumentException), fp)
        else Step(Ok(false), FrameHeaderLength)
      else
        var next := fp + len;
        Step(Ok(IsValidPosition(next, next + FrameHeaderLength + 1, |buf|)), next)
  }

  /** The frames a scan from `fp` visits: `q` is `fp` or is reached by hops
      after each of which `findNextFrame` reported more frames. */
  ghost predicate Reaches(buf: seq<Byte>, fp: int, q: int)
    requires fp >= FrameHeaderLength
    decreases |buf| - fp
  {
    fp == q ||
    (NextFrame(buf, fp).outcome == Ok(true) && Reaches(buf, NextFrame(buf, fp).framePointer, q))
  }

  /** The visited frames lie strictly after one another inside the buffer. */
  lemma {:induction false} ReachesForward(buf: seq<Byte>, fp: int, q: int)
    requires fp >= FrameHeaderLength && Reaches(buf, fp, q)
    ensures q == fp || fp + FrameHeaderLength <= q < |buf|
    decreases |buf| - fp
  {
    if fp != q {
      var s := NextFrame(buf, fp);
      ReachesForward(buf, s.framePointer, q);
    }
  }

  // ---------------------------------------------------------------- identifiers

  /** The frame at `at` carries identifier `id`. */
  predicate FrameIdIs(buf: seq<Byte>, at: int, id: seq<Byte>)
  {
    0 <= at && at + |id| <= |buf| && buf[at..at + |id|] == id
  }

  /** The comparison loop of `bytesFitToBuffer` from index `i` on: it stops at
      the first differing byte and throws when it reads past the buffer. */
  function MatchFrom(buf: seq<Byte>, at: int, name: seq<Byte>, i: int): (r: Result<bool>)
    requires 0 <= at && 0 <= i <= |name| && at + i <= |buf|
    requires forall k :: 0 <= k < i ==> buf[at + k] == name[k]
    ensures r == Ok(true) <==> FrameIdIs(buf, at, name)
    ensures r.Throw? ==> at + |name| > |buf| && r.exception == BufferUnderflowException
    decreases |name| - i
  {
    if i == |name| then
      assert buf[at..at + |name|] == name;
      Ok(true)
    else if at + i >= |buf| then Throw(BufferUnderflowException)
    else if buf[at + i] != name[i] then Ok(false)
    else MatchFrom(buf, at, name, i + 1)
  }

  /** `bytesFitToBuffer(name)` at the frame `at`. */
  function BytesFit(buf: seq<Byte>, at: int, name: seq<Byte>): (r: Result<bool>)
    ensures r == Ok(true) <==> FrameIdIs(buf, at, name)
    ensures r.Throw? ==> at < 0 || at + |name| > |buf|
  {
    if at < 0 || at > |buf| then Throw(IllegalArgumentException)
    else MatchFrom(buf, at, name, 0)
  }

  // ---------------------------------------------------------------- the scan

  /** Where a scan ends, and what `moveToFrame` returns. */
  datatype ScanEnd = ScanEnd(outcome: Result<bool>, framePointer: int)

  /** The loop of `moveToFrame` from the frame at `fp`: compare the identifier,
      hop to the next frame while `findNextFrame` reports more. */
  function ScanFrom(buf: seq<Byte>, fp: int, name: seq<Byte>): (e: ScanEnd)
    requires fp >= FrameHeaderLength
    ensures e.outcome == Ok(true) ==> FrameIdIs(buf, e.framePointer, name)
    ensures e.framePointer >= FrameHeaderLength
    decreases |buf| - fp
  {
    match BytesFit(buf, fp, name)
    case Throw(x) => ScanEnd(Throw(x), fp)
    case Ok(fits) =>
      if fits then ScanEnd(Ok(true), fp)
      else
        var s := NextFrame(buf, fp);
        if s.outcome != Ok(true) then ScanEnd(s.outcome, s.framePointer)
        else ScanFrom(buf, s.framePointer, name)
  }

  /** `moveToFrame(name)`: move to the first frame, which fails on a buffer
      shorter than 10 bytes after the pointer is set, then scan. */
  function FindFrame(buf: seq<Byte>, name: seq<Byte>): (e: ScanEnd)
    ensures e.outcome == Ok(true) ==> FrameIdIs(buf, e.framePointer, name)
    ensures e.framePointer >= FrameHeaderLength
  {
    if |buf| < FrameHeaderLength then ScanEnd(Throw(IllegalArgumentException), FrameHeaderLength)
    else ScanFrom(buf, FrameHeaderLength, name)
  }

  /** A scan that finds `name` stops at the first visited frame carrying it. */
  lemma {:induction false} ScanFindsFirst(buf: seq<Byte>, fp: int, name: seq<Byte>)
    requires fp >= FrameHeaderLength && ScanFrom(buf, fp, name).outcome == Ok(true)
    ensures Reaches(buf, fp, ScanFrom(buf, fp, name).framePointer)
    ensures forall p :: Reaches(buf, fp, p) && p < ScanFrom(buf, fp, name).framePointer ==>
      BytesFit(buf, p, name) == Ok(false)
    decreases |buf| - fp
  {
    var q := ScanFrom(buf, fp, name).framePointer;
    if BytesFit(buf, fp, name) == Ok(true) {
      forall p | Reaches(buf, fp, p) && p < q ensures false {
        ReachesForward(buf, fp, p);
      }
    } else {
      var s := NextFrame(buf, fp);
      ScanFindsFirst(buf, s.framePointer, name);
      forall p | Reaches(buf, fp, p) && p < q ensures BytesFit(buf, p, name) == Ok(false) {
        if p != fp {
          assert Reaches(buf, s.framePointer, p);
        }
      }
    }
  }

  /** A scan that finds nothing compared every visited frame, and none matched. */
  lemma {:induction false} ScanMissesAll(buf: seq<Byte>, fp: int, name: seq<Byte>)
    requires fp >= FrameHeaderLength && ScanFrom(buf, fp, name).outcome == Ok(false)
    ensures forall p :: Reaches(buf, fp, p) ==> BytesFit(buf, p, name) == Ok(false)
    decreases |buf| - fp
  {
    var s := NextFrame(buf, fp);
    if s.outcome == Ok(true) {
      ScanMissesAll(buf, s.framePointer, name);
    }
    forall p | Reaches(buf, fp, p) ensures BytesFit(buf, p, name) == Ok(false) {
      if p != fp {
        assert Reaches(buf, s.framePointer, p);
      }
    }
  }

  // ---------------------------------------------------------------- content

  /** The charsets `readEncoding` chooses from. */
  datatype Charset = ISO_8859_1 | UTF_8 | UTF_16

  /** The charset named by a frame's first content byte. */
  function CharsetOf(marker: Byte): (c: Charset)
    ensures c == UTF_8 <==> marker == 0x03
    ensures c == UTF_16 <==> marker == 0x01
    ensures c == ISO_8859_1 <==> marker != 0x01 && marker != 0x03
  {
    if marker == 0x03 then UTF_8 else if marker == 0x01 then UTF_16 else ISO_8859_1
  }

  /** `readEncoding` for the frame at `fp`: the charset of the byte at
      `fp + 10`, or the exception positioning or reading there raises. */
  function EncodingAt(buf: seq<Byte>, fp: int): (r: Result<Charset>)
    ensures r.Ok? <==> 0 <= fp + FrameHeaderLength < |buf|
  {
    var at := fp + FrameHeaderLength;
    if at < 0 || at > |buf| then Throw(IllegalArgumentException)
    else if at == |buf| then Throw(BufferUnderflowException)
    else Ok(CharsetOf(buf[at]))
  }

  /** Decoded frame text: the bytes handed to the charset's decoder.  Only
      ISO-8859-1 is decoded here (see `AsLatin1`). */
  datatype Text = Text(charset: Charset, bytes: seq<Byte>)
  {
    /** The string, for a text in ISO-8859-1: one character per byte. */
    function AsLatin1(): (s: string)
      requires charset == ISO_8859_1
      ensures |s| == |bytes| && forall i :: 0 <= i < |bytes| ==> s[i] as int == bytes[i]
    {
      Latin1Decode(bytes)
    }
  }

  /** The empty string the scanner returns when there is nothing to return. */
  const EmptyText := Text(ISO_8859_1, [])

  /** The `start` and `last` of `readContentOfCurrentFrame`, handed to
      `ByteBuffer.wrap(content, start, last)` as an offset and a LENGTH. */
  function TrimBounds(content: seq<Byte>): (b: (int, int))
    requires |content| > 2
    ensures 0 <= b.0 && 0 <= b.1
    ensures b.0 + b.1 <= |content| - 1
  {
    var last := |content| - 1;
    if content[0] == 0x00 || content[0] == 0x03 then (1, last - 1)
    else if content[0] == 0x01 && (content[1] == 0xFF || content[1] == 0xFE) then (1, last - 2)
    else (0, last)
  }

  /** `readContentOfCurrentFrame` for the frame at `fp`. */
  function FrameContent(buf: seq<Byte>, fp: int): (r: Result<Text>)
    ensures FrameLength(buf, fp).Ok? && FrameLength(buf, fp).value <= 2 ==> r == Ok(EmptyText)
    ensures r.Ok? <==> (FrameLength(buf, fp).Ok? &&
      (FrameLength(buf, fp).value <= 2 || fp + FrameHeaderLength + FrameLength(buf, fp).value <= |buf|))
  {
    var len :- FrameLength(buf, fp);
    if len <= 2 then Ok(EmptyText)
    else
      var charset :- EncodingAt(buf, fp);
      var from := fp + FrameHeaderLength;
      if len > |buf| - from then Throw(BufferUnderflowException)
      else Ok(Trimmed(charset, buf[from..from + len]))
  }

  /** Once size and charset are read, the content is the trimmed frame
      when it fits in the buffer and an underflow otherwise. */
  lemma FrameContentAfterEncoding(buf: seq<Byte>, fp: int, len: int, charset: Charset)
    requires FrameLength(buf, fp) == Ok(len) && len > 2
    requires EncodingAt(buf, fp) == Ok(charset)
    ensures FrameContent(buf, fp) ==
      if fp + FrameHeaderLength + len <= |buf|
      then Ok(Trimmed(charset, buf[fp + FrameHeaderLength..fp + FrameHeaderLength + len]))
      else Throw(BufferUnderflowException)
  {
  }

  /** The text handed to the charset's decoder: `content` cut down to the
      view `ByteBuffer.wrap(content, start, last)`.  As half-open ranges: a
      0x00 or 0x03 marker drops the marker and the last byte; a 0x01 marker
      followed by 0xFF or 0xFE drops the marker and the last two bytes (the
      byte-order mark stays for the UTF-16 decoder); any other first byte is
      kept and the last byte dropped. */
  function Trimmed(charset: Charset, content: seq<Byte>): (t: Text)
    requires |content| > 2
    ensures t == Text(charset,
      if content[0] == 0x00 || content[0] == 0x03 then content[1..|content| - 1]
      else if content[0] == 0x01 && (content[1] == 0xFF || content[1] == 0xFE) then content[1..|content| - 2]
      else content[..|content| - 1])
  {
    var (start, last) := TrimBounds(content);
    assert Wrap(content, start, last).value == content[start..start + last];
    Text(charset, Wrap(content, start, last).value)
  }

  /** The same trims as ranges of the buffer, for the frame at `fp`. */
  lemma FrameContentSlices(buf: seq<Byte>, fp: int)
    requires FrameLength(buf, fp).Ok?
    requires var len := FrameLength(buf, fp).value;
      len > 2 && fp + FrameHeaderLength + len <= |buf|
    ensures var len := FrameLength(buf, fp).value;
      var from := fp + FrameHeaderLength;
      var end := from + len;
      FrameContent(buf, fp) == Ok(Text(CharsetOf(buf[from]),
        if buf[from] == 0x00 || buf[from] == 0x03 then buf[from + 1..end - 1]
        else if buf[from] == 0x01 && (buf[from + 1] == 0xFF || buf[from + 1] == 0xFE) then buf[from + 1..end - 2]
        else buf[from..end - 1]))
  {
    var len := FrameLength(buf, fp).value;
    var from := fp + FrameHeaderLength;
    var content := buf[from..from + len];
    assert FrameContent(buf, fp) == Ok(Trimmed(CharsetOf(buf[from]), content));
    assert content[0] == buf[from] && content[1] == buf[from + 1];
    SliceOfSlice(buf, from, from + len, 1, len - 1);
    SliceOfSlice(buf, from, from + len, 1, len - 2);
    SliceOfSlice(buf, from, from + len, 0, len - 1);
    assert content[..len - 1] == content[0..len - 1];
  }

  /** A slice of a slice is a slice of the whole. */
  lemma SliceOfSlice(s: seq<Byte>, a: int, b: int, i: int, j: int)
    requires 0 <= a <= b <= |s| && 0 <= i <= j <= b - a
    ensures s[a..b][i..j] == s[a + i..a + j]
  {
    assert forall k :: 0 <= k < j - i ==> s[a..b][i..j][k] == s[a + i + k];
  }

  /** A frame whose first content byte is 0x00 is ISO-8859-1 text: the bytes
      between that marker and the frame's last byte. */
  lemma Latin1FrameContent(buf: seq<Byte>, fp: int, len: int)
    requires FrameLength(buf, fp) == Ok(len) && len > 2
    requires fp + FrameHeaderLength + len <= |buf| && buf[fp + FrameHeaderLength] == 0x00
    ensures FrameContent(buf, fp) ==
      Ok(Text(ISO_8859_1, buf[fp + FrameHeaderLength + 1..fp + FrameHeaderLength + len - 1]))
  {
    var from := fp + FrameHeaderLength;
    var content := buf[from..from + len];
    assert FrameContent(buf, fp) == Ok(Trimmed(ISO_8859_1, content));
    SliceOfSlice(buf, from, from + len, 1, len - 1);
  }

  // ---------------------------------------------------------------- queries

  /** `getMp3Attribute(frame)`: the content of the first visited frame with
      the frame's identifier, or the empty string. */
  function Attribute(buf: seq<Byte>, frame: AttributeFrame): (r: Result<Text>)
    ensures !HasMagic(buf) ==> r == Ok(EmptyText)
  {
    if !HasMagic(buf) then Ok(EmptyText)
    else
      var e := FindFrame(buf, frame.Bytes());
      var found :- e.outcome;
      if found then FrameContent(buf, e.framePointer) else Ok(EmptyText)
  }

  /** The attribute is the content of the first frame on the chain from the
      first frame that carries its identifier; without such a frame it is
      empty. */
  lemma AttributeIsFirstMatch(buf: seq<Byte>, frame: AttributeFrame)
    requires HasMagic(buf) && |buf| >= FrameHeaderLength
    ensures var e := FindFrame(buf, frame.Bytes());
      e.outcome == Ok(true) ==>
        Attribute(buf, frame) == FrameContent(buf, e.framePointer) &&
        Reaches(buf, FrameHeaderLength, e.framePointer) &&
        FrameIdIs(buf, e.framePointer, frame.Bytes()) &&
        forall p :: Reaches(buf, FrameHeaderLength, p) && p < e.framePointer ==> !FrameIdIs(buf, p, frame.Bytes())
    ensures var e := FindFrame(buf, frame.Bytes());
      e.outcome == Ok(false) ==>
        Attribute(buf, frame) == Ok(EmptyText) &&
        forall p :: Reaches(buf, FrameHeaderLength, p) ==> !FrameIdIs(buf, p, frame.Bytes())
  {
    var e := FindFrame(buf, frame.Bytes());
    if e.outcome == Ok(true) {
      ScanFindsFirst(buf, FrameHeaderLength, frame.Bytes());
    } else if e.outcome == Ok(false) {
      ScanMissesAll(buf, FrameHeaderLength, frame.Bytes());
    }
  }

  /** A scan for a 4-byte identifier never throws from a frame whose header
      up to the size field lies in the buffer: the identifier and the size can
      both be read there, and a hop that reports more frames lands on such a
      frame again. */
  lemma {:induction false} ScanNeverThrows(buf: seq<Byte>, fp: int, name: seq<Byte>)
    requires fp >= FrameHeaderLength && |name| == 4 && fp + 8 <= |buf|
    ensures ScanFrom(buf, fp, name).outcome.Ok?
    decreases |buf| - fp
  {
    var s := NextFrame(buf, fp);
    if BytesFit(buf, fp, name) == Ok(false) && s.outcome == Ok(true) {
      ScanNeverThrows(buf, s.framePointer, name);
    }
  }

  /** On a tag of at least 18 bytes (a header and the first frame's identifier
      and size), a key that no frame on the chain carries yields the empty
      text, never an exception. */
  lemma AbsentKeyIsEmpty(buf: seq<Byte>, frame: AttributeFrame)
    requires HasMagic(buf) && |buf| >= FrameHeaderLength + 8
    requires forall p :: Reaches(buf, FrameHeaderLength, p) ==> !FrameIdIs(buf, p, frame.Bytes())
    ensures FindFrame(buf, frame.Bytes()).outcome == Ok(false)
    ensures Attribute(buf, frame) == Ok(EmptyText)
  {
    var name := frame.Bytes();
    var e := ScanFrom(buf, FrameHeaderLength, name);
    assert FindFrame(buf, name) == e;
    ScanNeverThrows(buf, FrameHeaderLength, name);
    if e.outcome.value {
      ScanFindsFirst(buf, FrameHeaderLength, name);
      assert false;
    }
    assert e.outcome == Ok(false);
  }

  /** On a tag of at least 18 bytes, a key that some frame on the chain carries
      is found. */
  lemma PresentKeyIsFound(buf: seq<Byte>, frame: AttributeFrame, p: int)
    requires HasMagic(buf) && |buf| >= FrameHeaderLength + 8
    requires Reaches(buf, FrameHeaderLength, p) && FrameIdIs(buf, p, frame.Bytes())
    ensures FindFrame(buf, frame.Bytes()).outcome == Ok(true)
  {
    var name := frame.Bytes();
    var e := ScanFrom(buf, FrameHeaderLength, name);
    assert FindFrame(buf, name) == e;
    ScanNeverThrows(buf, FrameHeaderLength, name);
    if !e.outcome.value {
      ScanMissesAll(buf, FrameHeaderLength, name);
      assert false;
    }
    assert e.outcome == Ok(true);
  }

  /** A tag shorter than 18 bytes cannot hold the first frame's identifier
      and size, so every lookup throws: below 10 bytes the move to the first
      frame fails, and from 10 bytes on either the comparison, the size read
      of the hop or the size read of the content runs past the end. */
  lemma ShortTagLookupThrows(buf: seq<Byte>, frame: AttributeFrame)
    requires HasMagic(buf) && |buf| < FrameHeaderLength + 8
    ensures Attribute(buf, frame).Throw?
  {
    var name := frame.Bytes();
    if |buf| >= FrameHeaderLength {
      var e := ScanFrom(buf, FrameHeaderLength, name);
      assert FindFrame(buf, name) == e;
      var fit := BytesFit(buf, FrameHeaderLength, name);
      if fit == Ok(true) {
        assert e == ScanEnd(Ok(true), FrameHeaderLength);
        assert FrameLength(buf, FrameHeaderLength).Throw?;
      } else if fit == Ok(false) {
        assert NextFrame(buf, FrameHeaderLength).outcome.Throw?;
      }
    }
  }

  /** `getMp3AttributeForKey(key)`, with `None` for a null key: an empty or
      null key throws a `NullPointerException`, a name that is no constant's
      throws from `valueOf`, and any other key is looked up. */
  function AttributeForKey(buf: seq<Byte>, key: Option<string>): (r: Result<Text>)
    ensures key == None || key == Some("") ==> r == Throw(NullPointerException)
    ensures forall f: AttributeFrame :: key == Some(f.Name()) ==> r == Attribute(buf, f)
    ensures key.Some? && key.value != "" && (forall f: AttributeFrame :: f.Name() != key.value) ==>
      r == Throw(IllegalArgumentException)
  {
    if key.None? || key.value == "" then Throw(NullPointerException)
    else
      var attribute :- ValueOf(key.value);
      Attribute(buf, attribute)
  }

  /** `getNameOfCurrentFrame` for the frame at `fp`: its identifier read as
      ISO-8859-1, or the empty string when there is no tag. */
  function CurrentFrameName(buf: seq<Byte>, fp: int): (r: Result<string>)
    requires fp >= 0
    ensures !HasMagic(buf) ==> r == Ok("")
    ensures HasMagic(buf) ==> (r.Ok? <==> fp + 4 <= |buf|)
    ensures HasMagic(buf) && r.Ok? ==> |r.value| == 4 && forall i :: 0 <= i < 4 ==> r.value[i] as int == buf[fp + i]
  {
    if !HasMagic(buf) then Ok("")
    else if fp > |buf| then Throw(IllegalArgumentException)
    else if fp + 4 > |buf| then Throw(BufferUnderflowException)
    else
      Ok(Latin1Decode(buf[fp..fp + 4]))
  }
}
