/** `Address`, the three-byte SysEx parameter address, and its six-digit hex
    text (core/src/lib.rs:57-153). */
module Addresses {
  import opened Roland
  import opened Hex
  import opened Writer

  /** `Address { high, mid, low }`; `Address::new` is this constructor. */
  datatype Address = Address(high: u8, mid: u8, low: u8)

  /** The 24-bit number the address denotes, most significant byte first. */
  function Value24(a: Address): nat {
    a.high * 0x1_0000 + a.mid * 0x100 + a.low
  }

  /** `Address::from_hex`: exactly six hex digits of either case, read as
      three bytes in the order high, mid, low; every other length or
      character is `InvalidAddress`. */
  function FromHex(hex: string): (r: Result<Address>)
    ensures r.Ok? <==> |hex| == 6 && AllHex(hex)
    ensures r.Ok? ==> r.value.high == 16 * DigitValue(hex[0]) + DigitValue(hex[1])
    ensures r.Ok? ==> r.value.mid == 16 * DigitValue(hex[2]) + DigitValue(hex[3])
    ensures r.Ok? ==> r.value.low == 16 * DigitValue(hex[4]) + DigitValue(hex[5])
    ensures r.Err? ==> r.error == InvalidAddress
  {
    if |hex| != 6 then
      Err(InvalidAddress)
    else
      var high :- HexByte(hex[0..2]);
      var mid :- HexByte(hex[2..4]);
      var low :- HexByte(hex[4..6]);
      assert forall i | 0 <= i < 6 :: hex[i] == (if i < 2 then hex[0..2][i] else if i < 4 then hex[2..4][i - 2] else hex[4..6][i - 4]);
      Ok(Address(high, mid, low))
  }

  /** The accepted text, read as one six-digit number, is the address's
      24-bit value. */
  lemma FromHexValue(hex: string)
    requires FromHex(hex).Ok?
    ensures Value24(FromHex(hex).value) == HexValue(hex)
  {
    var a := FromHex(hex).value;
    assert hex == hex[0..2] + hex[2..4] + hex[4..6];
    HexValuePair(hex[0..2]);
    HexValuePair(hex[2..4]);
    HexValuePair(hex[4..6]);
    HexValueAppend(hex[0..2], hex[2..4]);
    HexValueAppend(hex[0..2] + hex[2..4], hex[4..6]);
  }

  /** `Address::to_hex`: `{:02X}` of each byte, concatenated. The result is
      six upper-case digits whose value is the address. */
  function ToHex(a: Address): (r: string)
    ensures |r| == 6 && AllUpperHex(r)
    ensures HexValue(r) == Value24(a)
  {
    ByteField(a.high);
    ByteField(a.mid);
    ByteField(a.low);
    ThreeFields(FormatHex(a.high, 2), FormatHex(a.mid, 2), FormatHex(a.low, 2));
    FormatHex(a.high, 2) + FormatHex(a.mid, 2) + FormatHex(a.low, 2)
  }

  /** `{:02X}` of a byte is two digits. */
  lemma ByteField(b: u8)
    ensures |FormatHex(b, 2)| == 2
  {
    assert Pow16(2) == 0x100;
    FormatHexWidth(b, 2);
  }

  /** Three two-digit fields read as one six-digit number. */
  lemma ThreeFields(h: string, m: string, l: string)
    requires |h| == 2 && |m| == 2 && |l| == 2
    requires AllUpperHex(h) && AllUpperHex(m) && AllUpperHex(l)
    ensures AllUpperHex(h + m + l)
    ensures HexValue(h + m + l) == HexValue(h) * 0x1_0000 + HexValue(m) * 0x100 + HexValue(l)
  {
    assert Pow16(2) == 0x100;
    HexValueAppend(h, m);
    HexValueAppend(h + m, l);
    var hm := HexValue(h + m);
    assert hm == HexValue(h) * 0x100 + HexValue(m);
    assert HexValue(h + m + l) == hm * 0x100 + HexValue(l);
  }

  /** `{:02X}` of a byte reads back as that byte. */
  lemma HexByteOfFormat(b: u8)
    ensures HexByte(FormatHex(b, 2)) == Ok(b)
  {
    FormatHexByte(b);
  }

  /** Reading two digits and printing them again upper-cases them. */
  lemma FormatOfHexByte(p: string)
    requires HexByte(p).Ok?
    ensures FormatHex(HexByte(p).value, 2) == ToUpper(p)
  {
    var u := ToUpper(p);
    HexValuePair(u);
    FormatHexUnique(HexByte(p).value, 2, u);
  }

  /** `from_hex` inverts `to_hex` on every address. */
  lemma FromHexToHex(a: Address)
    ensures FromHex(ToHex(a)) == Ok(a)
  {
    var s := ToHex(a);
    FormatHexWidth(a.high, 2);
    FormatHexWidth(a.mid, 2);
    FormatHexWidth(a.low, 2);
    assert s[0..2] == FormatHex(a.high, 2);
    assert s[2..4] == FormatHex(a.mid, 2);
    assert s[4..6] == FormatHex(a.low, 2);
    HexByteOfFormat(a.high);
    HexByteOfFormat(a.mid);
    HexByteOfFormat(a.low);
  }

  /** `to_hex` after `from_hex` gives back the accepted text in upper case. */
  lemma ToHexFromHex(hex: string)
    requires FromHex(hex).Ok?
    ensures ToHex(FromHex(hex).value) == ToUpper(hex)
  {
    var a := FromHex(hex).value;
    assert hex == hex[0..2] + hex[2..4] + hex[4..6];
    FormatOfHexByte(hex[0..2]);
    FormatOfHexByte(hex[2..4]);
    FormatOfHexByte(hex[4..6]);
    ToUpperAppend(hex[0..2], hex[2..4]);
    ToUpperAppend(hex[0..2] + hex[2..4], hex[4..6]);
  }

  /** `write_hex_byte`: splits the byte into nibbles (`byte >> 4 & 0x0F` is
      `byte / 16`, `byte & 0x0F` is `byte % 16`) and writes one digit per
      nibble. What it writes is `{:02X}` of the byte. */
  method WriteHexByte(w: Sink, byte: u8)
    modifies w
    ensures w.text == old(w.text) + FormatHex(byte, 2)
  {
    ghost var before := w.text;
    var high := (byte / 16) % 16;
    var low := byte % 16;
    var highChar := if high < 10 then ('0' as int + high) as char else ('A' as int + high - 10) as char;
    var lowChar := if low < 10 then ('0' as int + low) as char else ('A' as int + low - 10) as char;
    assert high == byte / 16;
    assert highChar == HexChar(byte / 16) && lowChar == HexChar(byte % 16);
    w.WriteChar(highChar);
    w.WriteChar(lowChar);
    FormatHexByte(byte);
    assert w.text == before + [highChar, lowChar];
  }

  /** `Address::write_hex`: the sink-writing form of `to_hex`; it writes
      exactly what `to_hex` returns. */
  method WriteHex(a: Address, w: Sink)
    modifies w
    ensures w.text == old(w.text) + ToHex(a)
  {
    ghost var before := w.text;
    WriteHexByte(w, a.high);
    WriteHexByte(w, a.mid);
    WriteHexByte(w, a.low);
    ghost var h, m, l := FormatHex(a.high, 2), FormatHex(a.mid, 2), FormatHex(a.low, 2);
    assert w.text == before + h + m + l;
    assert before + h + m + l == before + (h + m + l);
  }

  /** The address of the source's tests, in both directions. */
  lemma ToHexExample()
    ensures ToHex(Address(0x12, 0x34, 0x56)) == "123456"
  {
    assert FormatHex(0x12, 2) == "12";
    assert FormatHex(0x34, 2) == "34";
    assert FormatHex(0x56, 2) == "56";
  }

  lemma FromHexExample()
    ensures FromHex("123456") == Ok(Address(0x12, 0x34, 0x56))
  {
    ToHexExample();
    FromHexToHex(Address(0x12, 0x34, 0x56));
  }

  /** `write_hex` of that address into a fresh sink. */
  method WriteHexExample() returns (text: string)
    ensures text == "123456"
  {
    var w := new Sink();
    WriteHex(Address(0x12, 0x34, 0x56), w);
    ToHexExample();
    text := w.text;
  }
}
