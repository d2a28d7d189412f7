/** The attribute keys a caller may ask for: each is the identifier of an ID3v2
    text frame.  The enum's value-holder fields and methods do nothing and are
    not part of this model. */
module AttributeFrames {
  import opened JavaRuntime

  datatype AttributeFrame = TFLT | TALB | TIT2 | TPE1 | TPR2 | TRCK | TPOS | TCON | TSIZ
  {
    /** `name()`: the constant's own name, which is its frame identifier. */
    function Name(): (s: string)
      ensures |s| == 4
      ensures forall i :: 0 <= i < 4 ==> 'A' <= s[i] <= 'Z' || '0' <= s[i] <= '9'
    {
      match this
      case TFLT => "TFLT"
      case TALB => "TALB"
      case TIT2 => "TIT2"
      case TPE1 => "TPE1"
      case TPR2 => "TPR2"
      case TRCK => "TRCK"
      case TPOS => "TPOS"
      case TCON => "TCON"
      case TSIZ => "TSIZ"
    }

    /** `name().getBytes()`: the identifier's four ASCII bytes. */
    function Bytes(): (b: seq<Byte>)
      ensures |b| == 4 && Latin1Decode(b) == Name()
    {
      Latin1Encode(Name())
    }
  }

  /** `Id3TagAttributeFrame.valueOf(name)`: the constant with that name, or an
      `IllegalArgumentException` when there is none. */
  function ValueOf(name: string): (r: Result<AttributeFrame>)
    ensures r.Ok? ==> r.value.Name() == name
    ensures r.Throw? <==> forall f: AttributeFrame :: f.Name() != name
    ensures r.Throw? ==> r.exception == IllegalArgumentException
  {
    if name == "TFLT" then Ok(TFLT)
    else if name == "TALB" then Ok(TALB)
    else if name == "TIT2" then Ok(TIT2)
    else if name == "TPE1" then Ok(TPE1)
    else if name == "TPR2" then Ok(TPR2)
    else if name == "TRCK" then Ok(TRCK)
    else if name == "TPOS" then Ok(TPOS)
    else if name == "TCON" then Ok(TCON)
    else if name == "TSIZ" then Ok(TSIZ)
    else Throw(IllegalArgumentException)
  }

  /** Every constant is found again by its name. */
  lemma ValueOfName(f: AttributeFrame)
    ensures ValueOf(f.Name()) == Ok(f)
  {
  }
}
