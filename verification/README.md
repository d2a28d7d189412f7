# ID3v2 tag scanner of `Mp3File`, modelled in Dafny

`Mp3File` reads the ID3v2 tag at the start of a memory-mapped MP3 file. A
file has a tag when its first three bytes are "ID3". The tag's size is a
synchsafe integer at offset 6, and frames follow from offset 10. Each frame
has a 4-byte identifier, a 4-byte size, 2 flag bytes and `size` content bytes.
To find an attribute such as the title (`TIT2`), the scanner does this:

- it sets its frame pointer to 10;
- it compares the identifier at the pointer with the requested name, byte by byte;
- on a mismatch it hops `size + 10` bytes, until `findNextFrame` reports no more frames;
- on a match it reads the frame's content. The first content byte chooses the
  charset (0x03 UTF-8, 0x01 UTF-16, anything else ISO-8859-1). The marker and
  trailing bytes are cut off before decoding.

The project has five modules:

- `JavaRuntime` (`java_runtime.dfy`) holds what the scanner takes from Java:
  - unsigned bytes;
  - the exceptions that escape, as a `Result` datatype;
  - `ByteBuffer.wrap` with an offset and a length;
  - ISO-8859-1 decoding.
- `Synchsafe` (`synchsafe.dfy`) holds the 28-bit synchsafe integers of
  section 6.2 of the ID3v2.4.0 structure document. It has a decoder and an
  encoder, with round trips in both directions.
- `AttributeFrames` (`attribute_frame.dfy`) holds the nine attribute keys of
  `Id3TagAttributeFrame` and the enum's `valueOf`.
- `TagScan` (`tag_scan.dfy`) states what each step of the scanner computes, as
  functions of the buffer and the frame pointer. Its lemmas state what the
  scan promises:
  - the scan stops at the first visited frame carrying the name;
  - a scan that finds nothing has compared every visited frame;
  - the three content trims, as ranges of the buffer.
- `Mp3Files` (`mp3_file.dfy`) holds the class `Mp3File`:
  - an immutable buffer and the "is a tag" flag;
  - the mutable frame pointer and the buffer's read position;
  - one method per source method, with the same reads, position moves, loops
    and exceptions.

  Each method that performs a step of the scan is proved equal to its
  `TagScan` function and to keep the class invariant `Valid()`. The buffer
  primitives `MovePosition`, `Get` and `GetBytes` are specified directly by
  the bytes and read positions they produce.
- `ScanExamples` (`scan_examples.dfy`) computes small tags: a title "Hi", a
  second frame the scan never reaches, and tags too short to scan.

The model follows the code, including its quirks:

- Every frame size is decoded as synchsafe, whatever the tag version.
- `isValidPosition` adds the frame pointer to its argument.
  - `findNextFrame` passes it an absolute offset, so "more frames" means `2 * framePointer + 11 < capacity`.
  - That is not "room for one more frame header and a byte".
  - `ScanExamples.SecondFrameSkipped` shows a whole frame that is never compared because of it.
- `ByteBuffer.wrap(content, start, last)` takes a length. So when the first
  byte is no marker, the last content byte is dropped as well.
- Three bytes "ID3" are enough for a tag. A tag shorter than 18 bytes makes
  every attribute lookup throw instead of reporting an empty text
  (`TagScan.ShortTagLookupThrows`):
  - Below 10 bytes, the lookup cannot move to offset 10 and throws
    `IllegalArgumentException` (`ScanExamples.ShortTagThrows`).
  - From 10 to 17 bytes, it throws `BufferUnderflowException` when a read runs
    past the end: either the comparison of the first identifier, or the read
    of its size (`ScanExamples.CutIdentifierThrows`,
    `ScanExamples.CutSizeThrows`).
  - A tag of 11 to 13 bytes whose first identifier differs from the key early
    throws `IllegalArgumentException` instead. The comparison answers false,
    and the size read cannot move to offset 14, which lies past the end
    (`ScanExamples.MismatchedShortTagThrows`).

  From 18 bytes on, the scan never throws (`TagScan.ScanNeverThrows`). A key
  no frame on the chain carries then yields the empty text, and a key some
  frame on the chain carries is found.
- A null or empty key throws `NullPointerException`. Any other name that is
  not a constant throws `IllegalArgumentException` from `valueOf`, so the
  source's null check after `valueOf` can never fire.
- Reads past the end of the buffer throw `BufferUnderflowException`.
  Positions outside `[0, limit]` throw `IllegalArgumentException`. A synchsafe
  read below offset 3 throws `IllegalStateException`.

Buffers are limited to `MaxCapacity` (2^30 - 6) bytes. Below that, no `int`
sum the scanner forms can overflow. The class invariant `Valid()` bounds the
buffer, the read position and the frame pointer, and that bounds every sum.
Three sums are also asserted below `IntMax` explicitly:
- `framePointer + 4` in `ReadLengthOfCurrentFrame`;
- `framePointer + len` (the hop by a frame's size plus 10) in `FindNextFrame`;
- `2 * framePointer + 11` (the "more frames" test) in `FindNextFrame`.

## Model

| member | source | states |
|---|---|---|
| JavaRuntime.Wrap | id3tag-reader/src/main/java/de/akp/mp3file/Mp3File.java:91 | `wrap(array, offset, length)` succeeds exactly when offset and length fit in the array; the view has `length` bytes, the i-th being `array[offset + i]` |
| JavaRuntime.Latin1Decode | id3tag-reader/src/main/java/de/akp/mp3file/Mp3File.java:198 | ISO-8859-1 decoding yields one character per byte, with the byte's code |
| JavaRuntime.Latin1RoundTrip | id3tag-reader/src/main/java/de/akp/mp3file/Mp3File.java:198 | ISO-8859-1 decoding is lossless: encoding the decoded string gives the bytes back |
| Synchsafe.Low7 | id3tag-reader/src/main/java/de/akp/mp3file/Mp3File.java:53-56 | `b & 0x7F` is below 0x80, is `b` for a byte below 0x80 and `b - 0x80` otherwise |
| Synchsafe.Decode | id3tag-reader/src/main/java/de/akp/mp3file/Mp3File.java:53-56 | the assembled synchsafe value lies in [0, 2^28) |
| Synchsafe.MaskIsLow7 | id3tag-reader/src/main/java/de/akp/mp3file/Mp3File.java:53-56 | the source's mask `b & 0x7F` on a byte equals `Low7` |
| Synchsafe.OrOfShiftsIsSum | id3tag-reader/src/main/java/de/akp/mp3file/Mp3File.java:53-56 | on 32-bit ints, or-ing the four shifted seven-bit fields equals their sum with shifts as multiplications, and stays below 2^28 |
| Synchsafe.DecodeEncode | id3tag-reader/src/main/java/de/akp/mp3file/Mp3File.java:53-56 | every 28-bit value is recovered by decoding its synchsafe encoding |
| Synchsafe.EncodeDecode | id3tag-reader/src/main/java/de/akp/mp3file/Mp3File.java:53-56 | four bytes with clear high bits are exactly the encoding of their decoded value |
| Synchsafe.DecodeIgnoresHighBits | id3tag-reader/src/main/java/de/akp/mp3file/Mp3File.java:53-56 | the high bit of each of the four bytes does not affect the value |
| Synchsafe.DecodeInjective | id3tag-reader/src/main/java/de/akp/mp3file/Mp3File.java:53-56 | distinct synchsafe byte quadruples decode to distinct values |
| AttributeFrames.AttributeFrame.Name | id3tag-reader/src/main/java/de/akp/mp3file/Id3TagAttributeFrame.java:5-7 | every key's name is a 4-character identifier of capitals and digits |
| AttributeFrames.AttributeFrame.Bytes | id3tag-reader/src/main/java/de/akp/mp3file/Mp3File.java:154 | the bytes compared with a frame identifier are 4 bytes that decode to the key's name |
| AttributeFrames.ValueOf | id3tag-reader/src/main/java/de/akp/mp3file/Mp3File.java:146 | `valueOf` returns the constant with that name, and throws `IllegalArgumentException` exactly when no constant has it (it never returns null) |
| AttributeFrames.ValueOfName | id3tag-reader/src/main/java/de/akp/mp3file/Id3TagAttributeFrame.java:5-7 | every constant is found again by its name |
| TagScan.ReadSynchsafe | id3tag-reader/src/main/java/de/akp/mp3file/Mp3File.java:49-59 | the read succeeds exactly when `3 <= pos` and four bytes remain at `pos`; below 3 it throws `IllegalStateException`; the value is the synchsafe decoding of those four bytes, in [0, 2^28) |
| TagScan.FrameLength | id3tag-reader/src/main/java/de/akp/mp3file/Mp3File.java:70-73 | the size field is readable exactly when the 4 bytes at `framePointer + 4` lie in the buffer, and it is their synchsafe value, in [0, 2^28) |
| TagScan.HeaderLength | id3tag-reader/src/main/java/de/akp/mp3file/Mp3File.java:180-185 | the header length is defined exactly for a tag of at least 10 bytes, and is the synchsafe value of bytes 6-9; without a tag it is `IllegalArgumentException` |
| TagScan.IsValidPosition | id3tag-reader/src/main/java/de/akp/mp3file/Mp3File.java:120-126 | a move is valid exactly when the target `framePointer + movePosition` lies at or after the pointer and below the capacity |
| TagScan.MoreFramesTestDoublesPointer | id3tag-reader/src/main/java/de/akp/mp3file/Mp3File.java:103 | given the absolute offset `framePointer + 11`, the test accepts exactly when `2 * framePointer + 11 < capacity`; this implies the offset lies in the buffer, and misses exactly the pointers with `framePointer + 11 < capacity <= 2 * framePointer + 11` |
| TagScan.NextFrame | id3tag-reader/src/main/java/de/akp/mp3file/Mp3File.java:95-104 | defined exactly when the size field is readable; it either resets the pointer to 10 with "no more" (only when the hop would reach the capacity) or advances it by size + 10, staying below the capacity, and reports more exactly when `2 * next + 11 < capacity`; a thrown read leaves the pointer unchanged |
| TagScan.ReachesForward | id3tag-reader/src/main/java/de/akp/mp3file/Mp3File.java:95-104 | every frame a scan visits lies at least 10 bytes past the start and inside the buffer |
| TagScan.MatchFrom | id3tag-reader/src/main/java/de/akp/mp3file/Mp3File.java:171-176 | the comparison loop reports a match exactly when the identifier bytes equal the name, and throws `BufferUnderflowException` only when the name runs past the buffer |
| TagScan.BytesFit | id3tag-reader/src/main/java/de/akp/mp3file/Mp3File.java:169-178 | `bytesFitToBuffer` is true exactly when the frame at the pointer carries the name, and throws only when the name does not fit in the buffer |
| TagScan.ScanFrom | id3tag-reader/src/main/java/de/akp/mp3file/Mp3File.java:156-161 | a scan that succeeds stops on a frame carrying the name, never before offset 10 |
| TagScan.FindFrame | id3tag-reader/src/main/java/de/akp/mp3file/Mp3File.java:153-162 | `moveToFrame` restarts at offset 10 and, when it answers true, the pointer is on a frame carrying the name |
| TagScan.ScanFindsFirst | id3tag-reader/src/main/java/de/akp/mp3file/Mp3File.java:153-162 | a successful scan ends on a frame reachable from its start, and every earlier reachable frame did not match |
| TagScan.ScanMissesAll | id3tag-reader/src/main/java/de/akp/mp3file/Mp3File.java:153-162 | a scan that answers false compared every reachable frame and none matched |
| TagScan.CharsetOf | id3tag-reader/src/main/java/de/akp/mp3file/Mp3File.java:110-115 | marker 0x03 names UTF-8, 0x01 names UTF-16, and every other byte names ISO-8859-1 |
| TagScan.EncodingAt | id3tag-reader/src/main/java/de/akp/mp3file/Mp3File.java:106-118 | the charset is defined exactly when byte `framePointer + 10` exists |
| TagScan.TrimBounds | id3tag-reader/src/main/java/de/akp/mp3file/Mp3File.java:82-90 | the start and length of the decoded view are non-negative and stay inside the content, one byte short of its end at least |
| TagScan.FrameContent | id3tag-reader/src/main/java/de/akp/mp3file/Mp3File.java:75-92 | a frame of size at most 2 has the empty text; otherwise the content is defined exactly when the whole frame lies in the buffer |
| TagScan.Trimmed | id3tag-reader/src/main/java/de/akp/mp3file/Mp3File.java:82-91 | the text handed to the decoder is `[1, len-1)` after a 0x00/0x03 marker, `[1, len-2)` after 0x01 with a byte-order mark, and `[0, len-1)` otherwise |
| TagScan.FrameContentSlices | id3tag-reader/src/main/java/de/akp/mp3file/Mp3File.java:75-92 | the text of a frame is its charset and the same three trims, as ranges of the buffer starting at `framePointer + 10` |
| TagScan.Latin1FrameContent | id3tag-reader/src/main/java/de/akp/mp3file/Mp3File.java:75-92 | a frame whose content starts with 0x00 is ISO-8859-1 text of the bytes between the marker and the frame's last byte |
| TagScan.Attribute | id3tag-reader/src/main/java/de/akp/mp3file/Mp3File.java:132-138 | without a tag the attribute is the empty text, never an exception |
| TagScan.AttributeIsFirstMatch | id3tag-reader/src/main/java/de/akp/mp3file/Mp3File.java:132-138 | when the scan finds the key, the attribute is the content of the first reachable frame carrying it; when it does not, the attribute is empty and no reachable frame carries the key |
| TagScan.ScanNeverThrows | id3tag-reader/src/main/java/de/akp/mp3file/Mp3File.java:153-162 | a scan for a 4-byte name never throws from a frame whose identifier and size lie in the buffer, so on a tag of at least 18 bytes `moveToFrame` always answers |
| TagScan.AbsentKeyIsEmpty | id3tag-reader/src/main/java/de/akp/mp3file/Mp3File.java:132-138 | on a tag of at least 18 bytes, a key that no frame on the chain carries makes the scan answer false and the attribute the empty text, with no exception |
| TagScan.PresentKeyIsFound | id3tag-reader/src/main/java/de/akp/mp3file/Mp3File.java:153-162 | on a tag of at least 18 bytes, a key that some frame on the chain carries is found |
| TagScan.ShortTagLookupThrows | id3tag-reader/src/main/java/de/akp/mp3file/Mp3File.java:132-138 | on a tag shorter than 18 bytes every attribute lookup throws, whatever the key |
| TagScan.AttributeForKey | id3tag-reader/src/main/java/de/akp/mp3file/Mp3File.java:140-151 | a null or empty key throws `NullPointerException`, a non-constant name throws `IllegalArgumentException`, and a constant's name gives that constant's attribute |
| TagScan.CurrentFrameName | id3tag-reader/src/main/java/de/akp/mp3file/Mp3File.java:191-199 | without a tag the name is ""; with one it is defined exactly when 4 bytes lie at the pointer, and is those 4 bytes as characters |
| Mp3Files.Mp3File.constructor | id3tag-reader/src/main/java/de/akp/mp3file/Mp3File.java:39-45 | the file is a tag exactly when it has 3 bytes spelling "ID3"; the pointer starts at 10 and the read position at 0 |
| Mp3Files.Mp3File.MovePosition | id3tag-reader/src/main/java/de/akp/mp3file/Mp3File.java:128-130 | moving succeeds exactly for positions in [0, limit]; otherwise `IllegalArgumentException` and the position is unchanged |
| Mp3Files.Mp3File.Get | id3tag-reader/src/main/java/de/akp/mp3file/Mp3File.java:110 | `get()` returns the byte at the read position and advances it by one, or throws `BufferUnderflowException` at the limit without moving |
| Mp3Files.Mp3File.GetBytes | id3tag-reader/src/main/java/de/akp/mp3file/Mp3File.java:80 | a bulk `get` of `n` bytes returns the `n` bytes at the read position and advances by `n`, or, when fewer remain, throws `BufferUnderflowException` and moves nothing |
| Mp3Files.Mp3File.ReadUnsynchedIntegerStartingFrom | id3tag-reader/src/main/java/de/akp/mp3file/Mp3File.java:49-59 | returns `ReadSynchsafe` of the buffer and leaves the read position unchanged when it succeeds; an underflow leaves it at the limit |
| Mp3Files.Mp3File.ReadLengthOfCurrentFrame | id3tag-reader/src/main/java/de/akp/mp3file/Mp3File.java:70-73 | returns the synchsafe size field of the current frame; the read position is unchanged on success |
| Mp3Files.Mp3File.GetMp3HeaderLength | id3tag-reader/src/main/java/de/akp/mp3file/Mp3File.java:180-185 | returns `HeaderLength` of the buffer; the read position is unchanged on success |
| Mp3Files.Mp3File.HasMp3Header | id3tag-reader/src/main/java/de/akp/mp3file/Mp3File.java:66-68 | true exactly when the buffer has at least 3 bytes and they read "ID3"; never throws |
| Mp3Files.Mp3File.MovePositionToFirstFrame | id3tag-reader/src/main/java/de/akp/mp3file/Mp3File.java:61-64 | the pointer becomes 10 in every case; the read position moves there unless the buffer is shorter than 10 bytes, which throws `IllegalArgumentException` |
| Mp3Files.Mp3File.FindNextFrame | id3tag-reader/src/main/java/de/akp/mp3file/Mp3File.java:95-104 | result and new pointer are those of `NextFrame` from the old pointer; a reset also moves the read position to 10 |
| Mp3Files.Mp3File.BytesFitToBuffer | id3tag-reader/src/main/java/de/akp/mp3file/Mp3File.java:169-178 | the byte loop answers `BytesFit` at the pointer; on a match the read position is just past the identifier |
| Mp3Files.Mp3File.MoveToFrame | id3tag-reader/src/main/java/de/akp/mp3file/Mp3File.java:153-162 | the loop answers `FindFrame` and leaves the pointer where `FindFrame` ends; it terminates because each continuing hop increases the pointer |
| Mp3Files.Mp3File.ReadEncoding | id3tag-reader/src/main/java/de/akp/mp3file/Mp3File.java:106-118 | the charset named by byte `framePointer + 10` (0x03 UTF-8, 0x01 UTF-16, else ISO-8859-1), with the read position left on that byte |
| Mp3Files.Mp3File.ReadContentOfCurrentFrame | id3tag-reader/src/main/java/de/akp/mp3file/Mp3File.java:75-93 | returns `FrameContent` of the current frame, every exception included |
| Mp3Files.Mp3File.GetMp3Attribute | id3tag-reader/src/main/java/de/akp/mp3file/Mp3File.java:132-138 | returns `Attribute` of the buffer, which depends on the file alone and not on where earlier calls left the cursor; with a tag the pointer is left where `moveToFrame` stopped (`FindFrame`'s end), without one it is unchanged |
| Mp3Files.Mp3File.GetMp3AttributeForKey | id3tag-reader/src/main/java/de/akp/mp3file/Mp3File.java:140-151 | returns `AttributeForKey` of the buffer; for a constant's name the pointer is left where that constant's lookup leaves it, and on a null, empty or unknown key, or without a tag, it is unchanged |
| Mp3Files.Mp3File.GetNameOfCurrentFrame | id3tag-reader/src/main/java/de/akp/mp3file/Mp3File.java:191-199 | returns `CurrentFrameName` at the pointer; the pointer is unchanged and, on success, so is the read position |
| Mp3Files.LookupIsRepeatable | id3tag-reader/src/main/java/de/akp/mp3file/Mp3File.java:155 | two consecutive lookups of the same key on one file give the same answer, since each restarts at offset 10 |
| ScanExamples.SynchsafeExample | id3tag-reader/src/main/java/de/akp/mp3file/Mp3File.java:53-56 | the bytes 00 00 02 00 decode to 256 |
| ScanExamples.TitleExample | id3tag-reader/src/main/java/de/akp/mp3file/Mp3File.java:75-92 | a title frame of size 4 holding 00 'H' 'i' 00 yields "Hi", and the header reports 14 |
| ScanExamples.SecondFrameSkipped | id3tag-reader/src/main/java/de/akp/mp3file/Mp3File.java:103 | a whole second frame carrying the lead performer "A" is never compared, because after the hop to 21 the test asks for `2 * 21 + 11 < 34`; the lookup reports the empty text |
| ScanExamples.CutIdentifierThrows | id3tag-reader/src/main/java/de/akp/mp3file/Mp3File.java:169-178 | on a 12-byte tag ending inside the first identifier, the lookup throws `BufferUnderflowException` from the comparison |
| ScanExamples.CutSizeThrows | id3tag-reader/src/main/java/de/akp/mp3file/Mp3File.java:95-104 | on a 16-byte tag whose first frame carries another identifier and ends inside its size field, the lookup throws `BufferUnderflowException` from the size read |
| ScanExamples.MismatchedShortTagThrows | id3tag-reader/src/main/java/de/akp/mp3file/Mp3File.java:48-58 | on an 11-byte tag whose first identifier starts with 0x00, the comparison answers false and the size read cannot move to offset 14, so the lookup throws `IllegalArgumentException` |
| ScanExamples.ShortTagThrows | id3tag-reader/src/main/java/de/akp/mp3file/Mp3File.java:61-64 | on the 3-byte tag "ID3" every attribute lookup and the header query throw `IllegalArgumentException` |

## Left out

- Opening and memory-mapping the file, and turning an `IOException` into
  "no tag", are I/O. The class is built from the mapped bytes.
- `getPath` and `printStackTrace` return or print, and nothing else.
- UTF-8 and UTF-16 decoding are left to the Java library. A frame's text is
  modelled as its charset and the bytes handed to the decoder, and only
  ISO-8859-1 is decoded (`Text.AsLatin1`). Because no decoder is applied, an
  empty text of another charset and the source's `""` are not identified.
- The fields, constructors and methods of `Id3TagAttributeFrame` other than
  its constants do nothing for the scan (Id3TagAttributeFrame.java:10-38).
- `String.getBytes()` uses the platform charset. The model assumes it is
  ASCII-compatible, which every key's capitals and digits make safe in
  practice.
- Buffers longer than `MaxCapacity` bytes are not modelled. There the
  source's `int` sums could wrap around.
- Mp3Files.Mp3File.BytesFitToBuffer: the read position after a mismatch or an
  exception is not stated, only after a match. No caller reads it.
- Mp3Files.Mp3File.ReadContentOfCurrentFrame: the read position it leaves
  behind is not stated. No caller reads it.
- Mp3Files.Mp3File.MoveToFrame: the read position it leaves behind is not
  stated. Every caller moves it again before reading.
- Mp3Files.Mp3File.GetMp3Attribute: the read position it leaves behind is
  not stated. Every reader of the position sets it first or saves and
  restores it.
- Mp3Files.Mp3File.GetMp3AttributeForKey: the read position it leaves behind
  is not stated, for the same reason.
- Mp3Files.Mp3File.ReadLengthOfCurrentFrame: the read position after an
  exception is not stated. No caller reads it after an exception.
- Mp3Files.Mp3File.GetMp3HeaderLength: the read position after an exception
  is not stated, for the same reason.
- Mp3Files.Mp3File.FindNextFrame: the read position after an exception is not
  stated, for the same reason.
- Mp3Files.Mp3File.ReadEncoding: the read position after an exception is not
  stated, for the same reason.
- Mp3Files.Mp3File.GetNameOfCurrentFrame: the read position after an
  exception is not stated, for the same reason.
- Synchsafe.Decode: the sum of fields is proved equal to the source's or of
  shifts only on 32-bit values (`OrOfShiftsIsSum`, `MaskIsLow7`). The last
  step, that this 32-bit sum below 2^28 is the same integer, is not stated,
  because conversions between bit-vectors and integers are beyond the
  solver's budget here.
