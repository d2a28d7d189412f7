/** Worked tags: small buffers on which the scan's results are computed. */
module ScanExamples {
  import opened JavaRuntime
  import Synchsafe
  import opened AttributeFrames
  import opened TagScan

  /** The four bytes 00 00 02 00 carry the synchsafe value 256. */
  lemma SynchsafeExample()
    ensures Synchsafe.Decode(0x00, 0x00, 0x02, 0x00) == 256
  {
  }

  /** A tag holding one title frame "TIT2" of size 4 with the content
      00 'H' 'i' 00. */
  function TitleTag(): (tag: seq<Byte>)
  {
    [0x49, 0x44, 0x33, 4, 0, 0, 0, 0, 0, 14,
     0x54, 0x49, 0x54, 0x32, 0, 0, 0, 4, 0, 0,
     0x00, 0x48, 0x69, 0x00]
  }

  /** The title is "Hi": the Latin-1 marker and the trailing byte are dropped;
      the header announces 14 bytes of frames. */
  lemma TitleExample()
    ensures Attribute(TitleTag(), TIT2) == Ok(Text(ISO_8859_1, [0x48, 0x69]))
    ensures Text(ISO_8859_1, [0x48, 0x69]).AsLatin1() == "Hi"
    ensures HeaderLength(TitleTag()) == Ok(14)
  {
    var buf := TitleTag();
    TitleHasMagic();
    TitleFound();
    TitleContent();
    assert Attribute(buf, TIT2) == FrameContent(buf, 10);
    TitleHeaderLength();
  }

  lemma TitleHasMagic()
    ensures HasMagic(TitleTag())
  {
    assert TitleTag()[..3] == Magic;
  }

  lemma TitleHeaderLength()
    ensures HeaderLength(TitleTag()) == Ok(14)
  {
    var buf := TitleTag();
    TitleHasMagic();
    assert buf[6] == 0 && buf[7] == 0 && buf[8] == 0 && buf[9] == 14;
  }

  lemma TitleFound()
    ensures FindFrame(TitleTag(), TIT2.Bytes()) == ScanEnd(Ok(true), 10)
  {
    var buf := TitleTag();
    assert TIT2.Bytes() == [0x54, 0x49, 0x54, 0x32];
    assert buf[10..14] == [0x54, 0x49, 0x54, 0x32];
    assert BytesFit(buf, 10, TIT2.Bytes()) == Ok(true);
  }

  lemma TitleContent()
    ensures FrameContent(TitleTag(), 10) == Ok(Text(ISO_8859_1, [0x48, 0x69]))
  {
    var buf := TitleTag();
    TitleFrameLength();
    assert buf[20] == 0x00;
    Latin1FrameContent(buf, 10, 4);
    assert buf[21..23] == [0x48, 0x69];
  }

  lemma TitleFrameLength()
    ensures FrameLength(TitleTag(), 10) == Ok(4)
  {
    var buf := TitleTag();
    assert buf[14] == 0 && buf[15] == 0 && buf[16] == 0 && buf[17] == 4;
  }

  /** A 34-byte tag with a title frame of size 1 at offset 10 and a lead
      performer frame "TPE1" of size 3 at offset 21. */
  function TwoFrameTag(): (tag: seq<Byte>)
  {
    [0x49, 0x44, 0x33, 4, 0, 0, 0, 0, 0, 24,
     0x54, 0x49, 0x54, 0x32, 0, 0, 0, 1, 0, 0, 0x00,
     0x54, 0x50, 0x45, 0x31, 0, 0, 0, 3, 0, 0, 0x00, 0x41, 0x00]
  }

  /** The second frame is whole and carries "A", but the scan stops before
      comparing it: after the hop to 21 the test `isValidPosition(21 + 11)`
      asks for 21 + 32 < 34, although 21 + 11 < 34 leaves room for a frame
      header and a byte.  So the lead performer is reported empty. */
  lemma SecondFrameSkipped()
    ensures FrameIdIs(TwoFrameTag(), 21, TPE1.Bytes())
    ensures FrameContent(TwoFrameTag(), 21) == Ok(Text(ISO_8859_1, [0x41]))
    ensures 21 + FrameHeaderLength + 1 < |TwoFrameTag()|
    ensures NextFrame(TwoFrameTag(), 10) == Step(Ok(false), 21)
    ensures Attribute(TwoFrameTag(), TPE1) == Ok(EmptyText)
  {
    SecondFrameIsPerformer();
    SecondFrameContent();
    FirstHopIsLast();
    PerformerNotFound();
    TwoFrameHasMagic();
  }

  lemma TwoFrameHasMagic()
    ensures HasMagic(TwoFrameTag())
  {
    assert TwoFrameTag()[..3] == Magic;
  }

  lemma SecondFrameIsPerformer()
    ensures FrameIdIs(TwoFrameTag(), 21, TPE1.Bytes())
  {
    assert TPE1.Bytes() == [0x54, 0x50, 0x45, 0x31];
    assert TwoFrameTag()[21..25] == [0x54, 0x50, 0x45, 0x31];
  }

  lemma FirstFrameIsNotPerformer()
    ensures BytesFit(TwoFrameTag(), 10, TPE1.Bytes()) == Ok(false)
  {
    var buf := TwoFrameTag();
    var name := TPE1.Bytes();
    assert name == [0x54, 0x50, 0x45, 0x31];
    assert MatchFrom(buf, 10, name, 1) == Ok(false);
  }

  lemma PerformerNotFound()
    ensures FindFrame(TwoFrameTag(), TPE1.Bytes()) == ScanEnd(Ok(false), 21)
  {
    FirstFrameIsNotPerformer();
    FirstHopIsLast();
    assert ScanFrom(TwoFrameTag(), 10, TPE1.Bytes()) == ScanEnd(Ok(false), 21);
  }

  lemma FirstHopIsLast()
    ensures NextFrame(TwoFrameTag(), 10) == Step(Ok(false), 21)
  {
    var buf := TwoFrameTag();
    assert FrameLength(buf, 10) == Ok(1) by {
      assert buf[14] == 0 && buf[15] == 0 && buf[16] == 0 && buf[17] == 1;
    }
  }

  lemma SecondFrameContent()
    ensures FrameContent(TwoFrameTag(), 21) == Ok(Text(ISO_8859_1, [0x41]))
  {
    var buf := TwoFrameTag();
    SecondFrameLength();
    assert buf[31] == 0x00;
    Latin1FrameContent(buf, 21, 3);
    assert buf[32..33] == [0x41];
  }

  lemma SecondFrameLength()
    ensures FrameLength(TwoFrameTag(), 21) == Ok(3)
  {
    var buf := TwoFrameTag();
    assert buf[25] == 0 && buf[26] == 0 && buf[27] == 0 && buf[28] == 3;
  }

  /** Three bytes "ID3" make a tag, but the lookup cannot move to the first
      frame at offset 10 and throws instead of reporting an empty text; the
      header query cannot move to offset 6 either. */
  lemma ShortTagThrows(frame: AttributeFrame)
    ensures Attribute(Magic, frame) == Throw(IllegalArgumentException)
    ensures HeaderLength(Magic) == Throw(IllegalArgumentException)
  {
    assert Magic[..3] == Magic;
  }

  /** A 12-byte tag that ends inside the first frame's identifier "TI". */
  function CutIdentifierTag(): (tag: seq<Byte>)
  {
    [0x49, 0x44, 0x33, 4, 0, 0, 0, 0, 0, 0, 0x54, 0x49]
  }

  /** A 16-byte tag whose first frame "TALB" ends inside its size field. */
  function CutSizeTag(): (tag: seq<Byte>)
  {
    [0x49, 0x44, 0x33, 4, 0, 0, 0, 0, 0, 0, 0x54, 0x41, 0x4C, 0x42, 0, 0]
  }

  /** A tag of 10 to 17 bytes makes a lookup throw too: here the comparison
      of the identifier reads past the end, a buffer underflow. */
  lemma CutIdentifierThrows()
    ensures Attribute(CutIdentifierTag(), TIT2) == Throw(BufferUnderflowException)
  {
    var buf := CutIdentifierTag();
    assert HasMagic(buf) by { assert buf[..3] == Magic; }
    var name := TIT2.Bytes();
    assert name == [0x54, 0x49, 0x54, 0x32];
    assert MatchFrom(buf, 10, name, 2) == Throw(BufferUnderflowException);
    assert BytesFit(buf, 10, name) == Throw(BufferUnderflowException);
  }

  /** Here the identifier differs from the key, and the size read that
      follows runs past the end. */
  lemma CutSizeThrows()
    ensures Attribute(CutSizeTag(), TIT2) == Throw(BufferUnderflowException)
  {
    var buf := CutSizeTag();
    assert HasMagic(buf) by { assert buf[..3] == Magic; }
    var name := TIT2.Bytes();
    assert name == [0x54, 0x49, 0x54, 0x32];
    assert MatchFrom(buf, 10, name, 1) == Ok(false);
    assert BytesFit(buf, 10, name) == Ok(false);
    assert FrameLength(buf, 10) == Throw(BufferUnderflowException);
    assert NextFrame(buf, 10) == Step(Throw(BufferUnderflowException), 10);
  }

  /** An 11-byte tag whose first identifier starts with a zero byte. */
  function MismatchedShortTag(): (tag: seq<Byte>)
  {
    [0x49, 0x44, 0x33, 4, 0, 0, 0, 0, 0, 0, 0x00]
  }

  /** The first identifier differs from the key at its first byte, so the
      comparison answers false; the size read that follows cannot move to
      offset 14, past the end, and throws `IllegalArgumentException`. */
  lemma MismatchedShortTagThrows()
    ensures Attribute(MismatchedShortTag(), TIT2) == Throw(IllegalArgumentException)
  {
    var buf := MismatchedShortTag();
    assert HasMagic(buf) by { assert buf[..3] == Magic; }
    var name := TIT2.Bytes();
    assert name == [0x54, 0x49, 0x54, 0x32];
    assert BytesFit(buf, 10, name) == Ok(false);
    assert FrameLength(buf, 10) == Throw(IllegalArgumentException);
  }
}
