/** How the two halves of the codec meet: what `Response::parse` makes of
    the text `Command::encode` produces, and the parse cases of the source's
    tests (core/src/lib.rs:428-466). */
module Codec {
  import opened Roland
  import opened Hex
  import opened Addresses
  import opened Commands
  import opened Responses

  /** Upper-case hex digits contain no comma. */
  lemma NoCommaInHex(s: string)
    requires AllUpperHex(s)
    ensures ',' !in s
  {
  }

  /** An encoded command opens with its keyword's first letter. */
  lemma EncodeFirst(c: Command)
    ensures Encode(c)[0] == (if c.WriteParameter? then 'D' else if c.ReadParameter? then 'R' else 'V')
  {
    var r := Encode(c);
    match c
    case WriteParameter(address, value) =>
      FrameSlices("DTH:", ToHex(address), FormatHex(value, 2));
      assert r[..4][0] == 'D';
    case ReadParameter(address, size) =>
      FrameSlices("RQH:", ToHex(address), FormatHex(size, 6));
      assert r[..4][0] == 'R';
    case GetVersion =>
  }

  /** An encoded command opens with a letter and ends with `;`, so trimming
      and STX removal leave it as it is. */
  lemma EncodeStripped(c: Command)
    ensures Stripped(Encode(c)) == Encode(c) && Stripped([STX] + Encode(c)) == Encode(c)
  {
    EncodeFirst(c);
    LetterFrameStripped(Encode(c));
  }

  lemma LetterFrameStripped(r: string)
    requires r != [] && 'A' <= r[0] <= 'Z' && r[|r| - 1] == ';'
    ensures Stripped(r) == r && Stripped([STX] + r) == r
  {
    StrippedStxFrame(r);
  }

  /** A write request has the shape of a data reply: read back as a reply,
      it is the data reply carrying the same address and value. */
  lemma ParseEncodeWrite(a: Address, v: u8)
    ensures Parse(Encode(WriteParameter(a, v))) == Ok(Data(a, v))
  {
    var r := Encode(WriteParameter(a, v));
    EncodeStripped(WriteParameter(a, v));
    NoCommaInHex(ToHex(a));
    NoCommaInHex(FormatHex(v, 2));
    ParseDataFields(r, ToHex(a), FormatHex(v, 2));
    FromHexToHex(a);
    HexByteOfFormat(v);
  }

  /** A read request is not a reply. */
  lemma ParseEncodeRead(a: Address, n: u32)
    ensures Parse(Encode(ReadParameter(a, n))) == Err(InvalidResponse)
  {
    EncodeStripped(ReadParameter(a, n));
    EncodeFirst(ReadParameter(a, n));
    ReadRequestNotReply(Encode(ReadParameter(a, n)));
  }

  lemma ReadRequestNotReply(r: string)
    requires r != [] && r[0] == 'R'
    ensures Dispatch(r) == Err(InvalidResponse)
  {
    if |r| >= 4 {
      NotShortReply(r);
      assert r[..4][0] == 'R';
    }
    ParseUnrecognised(r);
  }

  /** Neither a read request nor a version request is a reply; `VER;`
      lacks the colon of `VER:`. */
  lemma ParseEncodeRequest(c: Command)
    requires !c.WriteParameter?
    ensures Parse(Encode(c)) == Err(InvalidResponse)
  {
    if c.ReadParameter? {
      ParseEncodeRead(c.address, c.size);
    } else {
      EncodeStripped(c);
      VersionRequestNotReply(Encode(c));
    }
  }

  lemma VersionRequestNotReply(r: string)
    requires r == "VER;"
    ensures Dispatch(r) == Err(InvalidResponse)
  {
    assert r[0] == 'V' && r[3] == ';' && |r| == 4;
    NotShortReply(r);
    assert r[..4][0] == 'V' && r[..4][3] == ';';
    ParseUnrecognised(r);
  }

  /** The STX framing of `encode_with_stx` does not change how the text
      parses. */
  lemma ParseIgnoresStx(c: Command)
    ensures Parse(EncodeWithStx(c)) == Parse(Encode(c))
  {
    EncodeStripped(c);
  }

  /** Up to the case of its hex digits, an accepted data reply is the
      encoding of the write request carrying the same address and value. */
  lemma ParseDataCanonical(s: string)
    requires Parse(s).Ok? && Parse(s).value.Data?
    ensures ToUpper(Stripped(s)) == Encode(WriteParameter(Parse(s).value.address, Parse(s).value.value))
  {
    var r := Stripped(s);
    var a, v := Parse(s).value.address, Parse(s).value.value;
    ParseDataShape(r);
    var p, q := r[4..10], r[11..13];
    ToHexFromHex(p);
    FormatOfHexByte(q);
    assert r == "DTH:" + p + "," + q + ";";
    UpperFrame(p, q);
  }

  /** Upper-casing a `DTH` frame upper-cases its two fields. */
  lemma UpperFrame(p: string, q: string)
    ensures ToUpper("DTH:" + p + "," + q + ";") == "DTH:" + ToUpper(p) + "," + ToUpper(q) + ";"
  {
    ToUpperAppend("DTH:", p);
    ToUpperAppend("DTH:" + p, ",");
    ToUpperAppend("DTH:" + p + ",", q);
    ToUpperAppend("DTH:" + p + "," + q, ";");
    assert ToUpper("DTH:") == "DTH:";
    assert ToUpper(",") == ",";
    assert ToUpper(";") == ";";
  }

  // ---------------------------------------------------------------------
  // The parse cases of the source's tests.

  lemma ParseAckExample()
    ensures Parse([ACK]) == Ok(Acknowledge)
  {
    StrippedStxFrame([ACK]);
  }

  lemma ParseDataExample()
    ensures Parse("DTH:123456,01;") == Ok(Data(Address(0x12, 0x34, 0x56), 0x01))
    ensures ToHex(Address(0x12, 0x34, 0x56)) == "123456"
  {
    EncodeWriteExample();
    ParseEncodeWrite(Address(0x12, 0x34, 0x56), 0x01);
    ToHexExample();
  }

  /** A version reply with comma-free fields parses to those fields. */
  lemma ParseVersionReply(p: string, v: string)
    requires ',' !in p && ',' !in v
    ensures Parse("VER:" + p + "," + v + ";") == Ok(Version(p, v))
  {
    var x := "VER:" + p + "," + v + ";";
    assert x[0] == 'V' && x[|x| - 1] == ';';
    StrippedStxFrame(x);
    VersionReply(x, p, v);
  }

  // The reply is written as the concatenation `ParseVersionReply` speaks
  // of; it is the text `VER:VR-6HD,1.00;`.
  lemma ParseVersionExample()
    ensures Parse("VER:" + "VR-6HD" + "," + "1.00" + ";") == Ok(Version("VR-6HD", "1.00"))
  {
    ParseVersionReply("VR-6HD", "1.00");
  }

  /** An error reply carries the device error of its code, or is rejected
      when the code is not a decimal `u8`. */
  lemma ParseErrorReply(d: string)
    ensures Parse("ERR:" + d + ";") ==
      if DecimalU8(d).Ok? then Ok(Error(DeviceError(DecimalU8(d).value))) else Err(InvalidResponse)
  {
    var x := "ERR:" + d + ";";
    assert x[0] == 'E' && x[|x| - 1] == ';';
    StrippedStxFrame(x);
    ParseErrorCode(x, d);
  }

  /** A one-digit code names its device error. */
  lemma ParseDigitErrorCode(c: char)
    requires '0' <= c <= '9'
    ensures Parse("ERR:" + [c] + ";") == Ok(Error(DeviceError(c as int - '0' as int)))
  {
    DecimalU8Digit(c);
    ParseErrorReply([c]);
  }

  lemma ParseErrorExample()
    ensures Parse("ERR:" + ['0'] + ";") == Ok(Error(SyntaxError))
  {
    ParseDigitErrorCode('0');
  }

  /** `parse` trims before it removes STX: whitespace outside the STX is
      ignored ... */
  lemma ParseWhitespaceOutsideStx(w1: string, w2: string)
    requires AllWhitespace(w1) && AllWhitespace(w2)
    ensures Parse(w1 + ([STX] + "ack") + w2) == Ok(Acknowledge)
  {
    ParseIgnoresWhitespace(w1, [STX] + "ack", w2);
    StrippedStxFrame("ack");
  }

  /** ... and whitespace after it is not: it survives the STX removal, and
      no reply opens with whitespace. */
  lemma ParseWhitespaceAfterStx(w: string, x: string)
    requires w != [] && AllWhitespace(w)
    ensures Parse([STX] + w + x) == Err(InvalidResponse)
  {
    var s := [STX] + w + x;
    assert !IsWhitespace(s[0]);
    assert TrimStart(s) == s;
    var t := Trim(s);
    assert t != [];
    assert t[0] == STX;
    var u := t[1..];
    assert Stripped(s) == u;
    if u != [] {
      assert u[0] == s[1] == w[0];
    }
    WhitespaceLedNotReply(u);
  }
}
