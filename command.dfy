/** `Command` and its two encoders: `encode`/`encode_with_stx`, which build
    a string with `format!`, and `write`/`write_with_stx`, which print the
    same shapes digit by digit into a sink (core/src/lib.rs:155-241). */
module Commands {
  import opened Roland
  import opened Hex
  import opened Addresses
  import opened Writer

  const Mask24: nat := 0x100_0000

  datatype Command =
    | WriteParameter(address: Address, value: u8)
    | ReadParameter(address: Address, size: u32)
    | GetVersion

  /** The slices of a `KKKK` + six-digit address + `,` + field + `;` frame. */
  lemma FrameSlices(keyword: string, address: string, field: string)
    requires |keyword| == 4 && |address| == 6
    ensures var r := keyword + address + "," + field + ";";
      && |r| == 12 + |field| && r[..4] == keyword && r[4..10] == address
      && r[10] == ',' && r[11..|r| - 1] == field && r[|r| - 1] == ';'
  {
  }

  /** `Command::encode`: `DTH:AAAAAA,VV;`, `RQH:AAAAAA,SSSSSS;` or `VER;`. */
  function Encode(c: Command): (r: string)
    ensures |r| >= 4 && r[|r| - 1] == ';'
  {
    match c
    case WriteParameter(address, value) =>
      FrameSlices("DTH:", ToHex(address), FormatHex(value, 2));
      "DTH:" + ToHex(address) + "," + FormatHex(value, 2) + ";"
    case ReadParameter(address, size) =>
      FrameSlices("RQH:", ToHex(address), FormatHex(size, 6));
      "RQH:" + ToHex(address) + "," + FormatHex(size, 6) + ";"
    case GetVersion =>
      "VER;"
  }

  /** A write request is 14 characters, and its address and value read back
      from their fields. */
  lemma EncodeWriteFields(address: Address, value: u8)
    ensures var r := Encode(WriteParameter(address, value));
      && |r| == 14 && r[..4] == "DTH:" && r[10] == ',' && r[13] == ';'
      && FromHex(r[4..10]) == Ok(address) && HexByte(r[11..13]) == Ok(value)
  {
    FrameSlices("DTH:", ToHex(address), FormatHex(value, 2));
    FormatHexWidth(value, 2);
    FromHexToHex(address);
    HexByteOfFormat(value);
  }

  /** A read request carries the address and the whole size: the size field
      is `{:06X}`, six digits exactly when the size fits in 24 bits and more
      otherwise. */
  lemma EncodeReadFields(address: Address, size: u32)
    ensures var r := Encode(ReadParameter(address, size));
      && |r| >= 18 && r[..4] == "RQH:" && r[10] == ','
      && FromHex(r[4..10]) == Ok(address)
      && AllUpperHex(r[11..|r| - 1]) && HexValue(r[11..|r| - 1]) == size
      && (|r| == 18 <==> size < Mask24)
  {
    FrameSlices("RQH:", ToHex(address), FormatHex(size, 6));
    assert Pow16(6) == Mask24;
    FormatHexWidth(size, 6);
    FromHexToHex(address);
  }

  /** `Command::encode_with_stx`: STX, then the plain encoding. */
  function EncodeWithStx(c: Command): string {
    [STX] + Encode(c)
  }

  /** The command with its size reduced to the 24 bits a size field holds. */
  function Masked(c: Command): Command {
    if c.ReadParameter? then ReadParameter(c.address, c.size % Mask24) else c
  }

  /** The encoding with a 24-bit size field: what `write` prints. It keeps
      the size field at six digits holding the low 24 bits of the size, and
      it agrees with `encode` exactly when the size fits in 24 bits. */
  function EncodeMasked(c: Command): (r: string)
    ensures c.ReadParameter? ==>
      |r| == 18 && AllUpperHex(r[11..17]) && HexValue(r[11..17]) == c.size % Mask24
  {
    if c.ReadParameter? then
      EncodeReadFields(c.address, c.size % Mask24);
      Encode(Masked(c))
    else
      Encode(c)
  }

  /** `write` and `encode` print the same text exactly when the command is
      not a read whose size needs more than 24 bits. */
  lemma WriteAgreesWithEncode(c: Command)
    ensures EncodeMasked(c) == Encode(c) <==> !(c.ReadParameter? && c.size >= Mask24)
  {
    if c.ReadParameter? && c.size >= Mask24 {
      EncodeReadFields(c.address, c.size);
      assert |EncodeMasked(c)| != |Encode(c)|;
    } else {
      assert Masked(c) == c;
    }
  }

  /** `write_hex_u24`: the three low bytes of the value as two digits each,
      the same digits as `{:06X}` of the value reduced to 24 bits. The
      shifts and masks `(value >> 16) & 0xFF`, `(value >> 8) & 0xFF` and
      `value & 0xFF` are the divisions and remainders below. */
  method WriteHexU24(w: Sink, value: u32)
    modifies w
    ensures w.text == old(w.text) + FormatHex(value % Mask24, 6)
  {
    var high := (value / 0x1_0000) % 0x100;
    var mid := (value / 0x100) % 0x100;
    var low := value % 0x100;
    ghost var before := w.text;
    WriteHexByte(w, high);
    WriteHexByte(w, mid);
    WriteHexByte(w, low);
    AppendThree(before, FormatHex(high, 2), FormatHex(mid, 2), FormatHex(low, 2));
    U24Digits(value, high, mid, low);
  }

  lemma AppendThree(before: string, a: string, b: string, c: string)
    ensures before + a + b + c == before + (a + b + c)
  {
  }

  /** The three two-digit byte fields spell `{:06X}` of the low 24 bits. */
  lemma U24Digits(v: u32, high: u8, mid: u8, low: u8)
    requires high == (v / 0x1_0000) % 0x100 && mid == (v / 0x100) % 0x100 && low == v % 0x100
    ensures FormatHex(high, 2) + FormatHex(mid, 2) + FormatHex(low, 2) == FormatHex(v % Mask24, 6)
  {
    var a := Address(high, mid, low);
    Low24Bytes(v);
    assert Value24(a) == v % Mask24;
    FormatHexUnique(v % Mask24, 6, ToHex(a));
  }

  lemma Low24Bytes(v: nat)
    ensures (v / 0x1_0000) % 0x100 * 0x1_0000 + (v / 0x100) % 0x100 * 0x100 + v % 0x100 == v % 0x100_0000
  {
    var q1, l := v / 0x100, v % 0x100;
    var q2, m := q1 / 0x100, q1 % 0x100;
    var q3, h := q2 / 0x100, q2 % 0x100;
    assert v / 0x1_0000 == q2;
    assert v == q3 * 0x100_0000 + (h * 0x1_0000 + m * 0x100 + l);
  }

  /** Appending the pieces of a frame one at a time appends the frame. */
  lemma AppendFrame(before: string, keyword: string, address: string, field: string)
    ensures before + keyword + address + "," + field + ";" == before + (keyword + address + "," + field + ";")
  {
  }

  /** `Command::write`: prints the command piece by piece. What it prints is
      `EncodeMasked(c)`, which is `Encode(c)` unless a read's size does not
      fit in 24 bits. */
  method Write(c: Command, w: Sink)
    modifies w
    ensures w.text == old(w.text) + EncodeMasked(c)
  {
    ghost var before := w.text;
    match c
    case WriteParameter(address, value) =>
      w.WriteStr("DTH:");
      WriteHex(address, w);
      w.WriteStr(",");
      WriteHexByte(w, value);
      w.WriteStr(";");
      AppendFrame(before, "DTH:", ToHex(address), FormatHex(value, 2));
      assert EncodeMasked(c) == "DTH:" + ToHex(address) + "," + FormatHex(value, 2) + ";";
    case ReadParameter(address, size) =>
      w.WriteStr("RQH:");
      WriteHex(address, w);
      w.WriteStr(",");
      WriteHexU24(w, size);
      w.WriteStr(";");
      AppendFrame(before, "RQH:", ToHex(address), FormatHex(size % Mask24, 6));
      assert EncodeMasked(c) == "RQH:" + ToHex(address) + "," + FormatHex(size % Mask24, 6) + ";";
    case GetVersion =>
      w.WriteStr("VER;");
  }

  /** `Command::write_with_stx`: STX, then `write`. */
  method WriteWithStx(c: Command, w: Sink)
    modifies w
    ensures w.text == old(w.text) + [STX] + EncodeMasked(c)
  {
    w.WriteChar(STX);
    Write(c, w);
  }

  /** The encodings the source's tests expect (core/src/lib.rs:395-427). */
  lemma EncodeWriteExample()
    ensures Encode(WriteParameter(Address(0x12, 0x34, 0x56), 0x01)) == "DTH:123456,01;"
  {
    ToHexExample();
    assert FormatHex(1, 2) == "01";
  }

  lemma EncodeReadExample()
    ensures Encode(ReadParameter(Address(0x12, 0x34, 0x56), 1)) == "RQH:123456,000001;"
  {
    ToHexExample();
    SizeOneField();
  }

  /** `write` of the write request of the source's test prints its text
      into a fresh sink. */
  method WriteCommandExample() returns (text: string)
    ensures text == "DTH:123456,01;"
  {
    var c := WriteParameter(Address(0x12, 0x34, 0x56), 0x01);
    var w := new Sink();
    Write(c, w);
    WriteAgreesWithEncode(c);
    EncodeWriteExample();
    text := w.text;
  }

  /** A one-byte read of any address. */
  lemma EncodeReadSizeOne(a: Address)
    ensures Encode(ReadParameter(a, 1)) == "RQH:" + ToHex(a) + "," + "000001" + ";"
  {
    SizeOneField();
  }

  lemma SizeOneField()
    ensures FormatHex(1, 6) == "000001"
  {
    ZerosAreZero(5);
    assert FormatHex(1, 6) == Zeros(5) + "1";
  }

  lemma EncodeVersionExample()
    ensures Encode(GetVersion) == "VER;"
    ensures EncodeWithStx(GetVersion) == [STX] + "VER;"
  {
  }

  /** `{:06X}` of 2^24 has seven digits. */
  lemma WideSizeField()
    ensures FormatHex(Mask24, 6) == "1000000"
  {
    assert HexDigits(0x10) == "10";
    assert HexDigits(0x100) == "100";
    assert HexDigits(0x1000) == "1000";
    assert HexDigits(0x1_0000) == "10000";
    assert HexDigits(0x10_0000) == "100000";
    assert HexDigits(0x100_0000) == "1000000";
  }

  /** A read of 2^24 bytes: `encode` prints a seven-digit size field, while
      `write` prints six zero digits. */
  lemma EncodeOverlongSize(a: Address)
    ensures Encode(ReadParameter(a, Mask24)) == "RQH:" + ToHex(a) + "," + "1000000" + ";"
    ensures EncodeMasked(ReadParameter(a, Mask24)) == "RQH:" + ToHex(a) + "," + "000000" + ";"
  {
    WideSizeField();
    ZeroSizeField();
    assert Masked(ReadParameter(a, Mask24)) == ReadParameter(a, 0);
  }

  lemma ZeroSizeField()
    ensures FormatHex(0, 6) == "000000"
  {
    ZerosAreZero(5);
  }

}
