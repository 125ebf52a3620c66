/** `Response` and `Response::parse`, the total map from received text to a
    response or an error, with `parse_decimal_u8` for the numeric code of an
    `ERR` reply (core/src/lib.rs:243-366). */
module Responses {
  import opened Roland
  import opened Hex
  import opened Addresses

  datatype Response =
    | Acknowledge
    | Data(address: Address, value: u8)
    | Version(product: string, version: string)
    | Error(reported: RolandError)

  // ---------------------------------------------------------------------
  // The string operations `parse` uses: `trim`, `split` and the prefix and
  // suffix tests.

  /** `char::is_whitespace`: the characters with the Unicode White_Space
      property, the set `str::trim` removes. */
  predicate IsWhitespace(c: char) {
    || '\t' <= c <= '\r'
    || c == ' '
    || c == '\U{85}'
    || c == '\U{A0}'
    || c == '\U{1680}'
    || '\U{2000}' <= c <= '\U{200A}'
    || c == '\U{2028}'
    || c == '\U{2029}'
    || c == '\U{202F}'
    || c == '\U{205F}'
    || c == '\U{3000}'
  }

  /** The longest suffix of `s` that does not start with whitespace. */
  function TrimStart(s: string): (r: string)
    ensures |r| <= |s| && r == s[|s| - |r|..]
    ensures r == [] || !IsWhitespace(r[0])
    ensures forall i :: 0 <= i < |s| - |r| ==> IsWhitespace(s[i])
  {
    if s != [] && IsWhitespace(s[0]) then TrimStart(s[1..]) else s
  }

  /** The longest prefix of `s` that does not end with whitespace. */
  function TrimEnd(s: string): (r: string)
    ensures |r| <= |s| && r == s[..|r|]
    ensures r == [] || !IsWhitespace(r[|r| - 1])
    ensures forall i :: |r| <= i < |s| ==> IsWhitespace(s[i])
  {
    if s != [] && IsWhitespace(s[|s| - 1]) then TrimEnd(s[..|s| - 1]) else s
  }

  /** `str::trim`: the part of `s` left once leading and trailing
      whitespace is removed, which neither starts nor ends with whitespace. */
  function Trim(s: string): (r: string)
    ensures |r| <= |TrimStart(s)| <= |s|
    ensures r == [] || (!IsWhitespace(r[0]) && !IsWhitespace(r[|r| - 1]))
    ensures r == s[|s| - |TrimStart(s)|..][..|r|]
  {
    TrimEnd(TrimStart(s))
  }

  /** Text that neither starts nor ends with whitespace is left as it is. */
  lemma TrimNoop(s: string)
    requires s == [] || (!IsWhitespace(s[0]) && !IsWhitespace(s[|s| - 1]))
    ensures Trim(s) == s
  {
  }

  predicate AllWhitespace(w: string) {
    forall i :: 0 <= i < |w| ==> IsWhitespace(w[i])
  }

  /** Leading whitespace is exactly what `TrimStart` removes. */
  lemma {:induction false} TrimStartWhitespace(w: string, x: string)
    requires AllWhitespace(w)
    ensures TrimStart(w + x) == TrimStart(x)
    decreases |w|
  {
    if w == [] {
      assert w + x == x;
    } else {
      assert (w + x)[1..] == w[1..] + x;
      TrimStartWhitespace(w[1..], x);
    }
  }

  /** Once a non-whitespace character is reached, what follows is kept. */
  lemma {:induction false} TrimStartAppend(s: string, t: string)
    requires TrimStart(s) != []
    ensures TrimStart(s + t) == TrimStart(s) + t
    decreases |s|
  {
    assert (s + t)[0] == s[0];
    if IsWhitespace(s[0]) {
      assert (s + t)[1..] == s[1..] + t;
      TrimStartAppend(s[1..], t);
    }
  }

  /** Trailing whitespace is exactly what `TrimEnd` removes. */
  lemma {:induction false} TrimEndWhitespace(x: string, w: string)
    requires AllWhitespace(w)
    ensures TrimEnd(x + w) == TrimEnd(x)
    decreases |w|
  {
    if w == [] {
      assert x + w == x;
    } else {
      var w' := w[..|w| - 1];
      assert (x + w)[..|x + w| - 1] == x + w';
      TrimEndWhitespace(x, w');
    }
  }

  /** `trim` ignores whitespace added on either side. */
  lemma TrimSurrounding(w1: string, s: string, w2: string)
    requires AllWhitespace(w1) && AllWhitespace(w2)
    ensures Trim(w1 + s + w2) == Trim(s)
  {
    assert w1 + s + w2 == w1 + (s + w2);
    TrimStartWhitespace(w1, s + w2);
    if TrimStart(s) != [] {
      TrimStartAppend(s, w2);
      TrimEndWhitespace(TrimStart(s), w2);
    } else {
      assert AllWhitespace(s);
      TrimStartWhitespace(s, w2);
      TrimStartWhitespace(w2, []);
      assert w2 + [] == w2;
    }
  }

  /** Removes one leading STX, as `parse` does after trimming. */
  function StripStx(s: string): string {
    if s != [] && s[0] == STX then s[1..] else s
  }

  /** The text `parse` dispatches on: trimmed, then without one leading STX.
      Nothing trims it again after the STX is removed. */
  function Stripped(response: string): string {
    StripStx(Trim(response))
  }

  predicate StartsWith(s: string, prefix: string) {
    |prefix| <= |s| && s[..|prefix|] == prefix
  }

  predicate EndsWithSemicolon(s: string) {
    s != [] && s[|s| - 1] == ';'
  }

  /** `parts.join(sep)`, the inverse of `Split`. */
  function Join(parts: seq<string>, sep: char): string {
    if |parts| == 0 then []
    else if |parts| == 1 then parts[0]
    else parts[0] + [sep] + Join(parts[1..], sep)
  }

  /** The position of the first `sep` in `s`. */
  function FirstIndex(s: string, sep: char): (i: nat)
    requires sep in s
    ensures i < |s| && s[i] == sep && sep !in s[..i]
  {
    if s[0] == sep then 0 else
      var i := FirstIndex(s[1..], sep) + 1;
      assert s[..i] == [s[0]] + s[1..][..i - 1];
      i
  }

  /** `str::split(sep)` collected into a vector: one more piece than there
      are separators, no piece holds a separator, and joining the pieces
      with the separator gives back the text. */
  function Split(s: string, sep: char): (parts: seq<string>)
    ensures |parts| == multiset(s)[sep] + 1
    ensures forall k :: 0 <= k < |parts| ==> sep !in parts[k]
    ensures Join(parts, sep) == s
    decreases |s|
  {
    if sep !in s then
      assert multiset(s)[sep] == 0;
      [s]
    else
      var i := FirstIndex(s, sep);
      var rest := Split(s[i + 1..], sep);
      assert s == s[..i] + [sep] + s[i + 1..];
      assert multiset(s[..i])[sep] == 0;
      assert ([s[..i]] + rest)[1..] == rest;
      [s[..i]] + rest
  }

  /** Text without the separator is one piece. */
  lemma SplitNone(s: string, sep: char)
    requires sep !in s
    ensures Split(s, sep) == [s]
  {
  }

  /** Text with exactly one separator splits around it. */
  lemma SplitTwo(p: string, v: string, sep: char)
    requires sep !in p && sep !in v
    ensures Split(p + [sep] + v, sep) == [p, v]
  {
    var s := p + [sep] + v;
    assert s[|p|] == sep;
    var i := FirstIndex(s, sep);
    assert i == |p| by {
      assert s[..|p|] == p;
    }
    assert s[..i] == p && s[i + 1..] == v;
    SplitNone(v, sep);
  }

  // ---------------------------------------------------------------------
  // Error codes of `ERR:` replies.

  predicate IsDecimalDigit(c: char) {
    '0' <= c <= '9'
  }

  predicate AllDecimal(s: string) {
    forall i :: 0 <= i < |s| ==> IsDecimalDigit(s[i])
  }

  /** Big-endian value of a string of decimal digits. */
  function DecimalValue(s: string): nat
    requires AllDecimal(s)
  {
    if s == [] then 0 else DecimalValue(s[..|s| - 1]) * 10 + (s[|s| - 1] as int - '0' as int)
  }

  /** A prefix of a digit string never has a larger value than the whole. */
  lemma {:induction false} DecimalValuePrefix(s: string, k: nat)
    requires AllDecimal(s) && k <= |s|
    ensures DecimalValue(s[..k]) <= DecimalValue(s)
    decreases |s|
  {
    if k < |s| {
      assert s[..|s| - 1][..k] == s[..k];
      DecimalValuePrefix(s[..|s| - 1], k);
    } else {
      assert s[..k] == s;
    }
  }

  /** Three decimal digits, most significant first. */
  lemma DecimalValueThree(s: string)
    requires |s| == 3 && AllDecimal(s)
    ensures DecimalValue(s) ==
      100 * (s[0] as int - '0' as int) + 10 * (s[1] as int - '0' as int) + (s[2] as int - '0' as int)
  {
    var two := s[..2];
    assert two[..1] == s[..1] && s[..1][..0] == [];
    assert DecimalValue(s[..1]) == s[0] as int - '0' as int;
    assert DecimalValue(two) == DecimalValue(s[..1]) * 10 + (s[1] as int - '0' as int);
  }

  /** What `parse_decimal_u8` returns: the value of a string made only of
      decimal digits when it is at most 255 (the empty string is 0), and
      `InvalidResponse` for any other character or a larger value. */
  function DecimalU8(s: string): (r: Result<u8>)
    ensures r.Ok? <==> AllDecimal(s) && DecimalValue(s) <= 255
    ensures r.Ok? ==> r.value == DecimalValue(s)
    ensures r.Err? ==> r.error == InvalidResponse
  {
    if AllDecimal(s) && DecimalValue(s) <= 255 then Ok(DecimalValue(s)) else Err(InvalidResponse)
  }

  /** One decimal digit is its own value. */
  lemma DecimalU8Digit(c: char)
    requires IsDecimalDigit(c)
    ensures DecimalU8([c]) == Ok(c as int - '0' as int)
  {
    assert [c][..0] == [];
    assert AllDecimal([c]) && DecimalValue([c]) == c as int - '0' as int;
  }

  /** The empty code is 0; 255 is the largest code and 256 overflows. */
  lemma DecimalU8Bounds()
    ensures DecimalU8("") == Ok(0)
    ensures DecimalU8("255") == Ok(255)
    ensures DecimalU8("256") == Err(InvalidResponse)
  {
    DecimalValueThree("255");
    DecimalValueThree("256");
  }

  /** `parse_decimal_u8`: a loop over the characters that multiplies a `u8`
      accumulator by ten and adds the digit, with `checked_mul` and
      `checked_add`; a non-digit or an overflow stops it with
      `InvalidResponse`. */
  method ParseDecimalU8(s: string) returns (r: Result<u8>)
    ensures r == DecimalU8(s)
  {
    var result: u8 := 0;
    for i := 0 to |s|
      invariant AllDecimal(s[..i])
      invariant result == DecimalValue(s[..i])
    {
      var ch := s[i];
      if !('0' <= ch <= '9') {
        return Err(InvalidResponse);
      }
      var digit := ch as int - '0' as int;
      assert s[..i + 1][..i] == s[..i];
      assert AllDecimal(s[..i + 1]) && DecimalValue(s[..i + 1]) == result * 10 + digit;
      if result * 10 > 255 {
        // `checked_mul` overflows
        OverflowIsFinal(s, i + 1);
        return Err(InvalidResponse);
      }
      var product: u8 := result * 10;
      if product + digit > 255 {
        // `checked_add` overflows
        OverflowIsFinal(s, i + 1);
        return Err(InvalidResponse);
      }
      result := product + digit;
    }
    assert s[..|s|] == s;
    return Ok(result);
  }

  /** Once a prefix of digits exceeds 255, the whole string is rejected. */
  lemma OverflowIsFinal(s: string, k: nat)
    requires k <= |s| && AllDecimal(s[..k]) && DecimalValue(s[..k]) > 255
    ensures DecimalU8(s) == Err(InvalidResponse)
  {
    if AllDecimal(s) {
      DecimalValuePrefix(s, k);
    }
  }

  /** The error kind an `ERR` code stands for. */
  function DeviceError(code: u8): (e: RolandError)
    ensures IsDeviceError(e)
  {
    match code
    case 0 => SyntaxError
    case 4 => Invalid
    case 5 => OutOfRange
    case 6 => NoStx
    case _ => UnknownError(code)
  }

  /** The errors an `ERR` reply can carry: the four named kinds, and
      `UnknownError` of a code that has no name. */
  predicate IsDeviceError(e: RolandError) {
    || e.SyntaxError? || e.Invalid? || e.OutOfRange? || e.NoStx?
    || (e.UnknownError? && e.code != 0 && e.code != 4 && e.code != 5 && e.code != 6)
  }

  /** The code of a device error, the inverse of `DeviceError`. */
  function ErrorCode(e: RolandError): (code: u8)
    requires IsDeviceError(e)
    ensures DeviceError(code) == e
  {
    match e
    case SyntaxError => 0
    case Invalid => 4
    case OutOfRange => 5
    case NoStx => 6
    case UnknownError(code) => code
  }

  /** Each code names exactly one error, and the code is recovered from it. */
  lemma DeviceErrorInverse(code: u8)
    ensures ErrorCode(DeviceError(code)) == code
  {
  }

  // ---------------------------------------------------------------------
  // `Response::parse`.

  /** The `DTH:` branch: `content` is the text after the keyword. */
  function ParseData(content: string): (r: Result<Response>)
    ensures r.Ok? ==> r.value.Data?
    ensures r.Err? ==> r.error == InvalidResponse || r.error == InvalidAddress
  {
    if !EndsWithSemicolon(content) then
      Err(InvalidResponse)
    else
      var parts := Split(content[..|content| - 1], ',');
      if |parts| != 2 then
        Err(InvalidResponse)
      else
        var address :- FromHex(parts[0]);
        var value :- HexByte(parts[1]);
        Ok(Data(address, value))
  }

  /** The `VER:` branch. */
  function ParseVersion(content: string): (r: Result<Response>)
    ensures r.Ok? ==> r.value.Version? && ',' !in r.value.product && ',' !in r.value.version
    ensures r.Err? ==> r.error == InvalidResponse
  {
    if !EndsWithSemicolon(content) then
      Err(InvalidResponse)
    else
      var parts := Split(content[..|content| - 1], ',');
      if |parts| != 2 then
        Err(InvalidResponse)
      else
        Ok(Version(parts[0], parts[1]))
  }

  /** The `ERR:` branch. */
  function ParseError(content: string): (r: Result<Response>)
    ensures r.Ok? ==> r.value.Error? && IsDeviceError(r.value.reported)
    ensures r.Err? ==> r.error == InvalidResponse
  {
    if !EndsWithSemicolon(content) then
      Err(InvalidResponse)
    else
      var code :- DecimalU8(content[..|content| - 1]);
      Ok(Error(DeviceError(code)))
  }

  /** The dispatch of `Response::parse` on the stripped text. */
  function Dispatch(r: string): (res: Result<Response>)
    ensures res.Err? ==> res.error == InvalidResponse || res.error == InvalidAddress
    ensures res.Err? && res.error == InvalidAddress ==> StartsWith(r, "DTH:")
    ensures res.Ok? && res.value.Error? ==> IsDeviceError(res.value.reported)
  {
    if r == [ACK] || r == "ack" then
      Ok(Acknowledge)
    else if r == [XON] || r == "xon" then
      Err(InvalidResponse)
    else if r == [XOFF] || r == "xoff" then
      Err(InvalidResponse)
    else if StartsWith(r, "DTH:") then
      ParseData(r[4..])
    else if StartsWith(r, "VER:") then
      ParseVersion(r[4..])
    else if StartsWith(r, "ERR:") then
      ParseError(r[4..])
    else
      Err(InvalidResponse)
  }

  /** `Response::parse`: trims, drops one leading STX, then dispatches. It
      fails only with `InvalidResponse`, or with `InvalidAddress` on a `DTH`
      reply whose fields are not hex; an `ERR` reply always carries a device
      error. */
  function Parse(response: string): (r: Result<Response>)
    ensures r.Err? ==> r.error == InvalidResponse || r.error == InvalidAddress
    ensures r.Err? && r.error == InvalidAddress ==> StartsWith(Stripped(response), "DTH:")
    ensures r.Ok? && r.value.Error? ==> IsDeviceError(r.value.reported)
  {
    Dispatch(Stripped(response))
  }

  // ---------------------------------------------------------------------
  // What `parse` accepts and rejects.

  /** Whitespace around a reply does not change how it parses. */
  lemma ParseIgnoresWhitespace(w1: string, s: string, w2: string)
    requires AllWhitespace(w1) && AllWhitespace(w2)
    ensures Parse(w1 + s + w2) == Parse(s)
  {
    TrimSurrounding(w1, s, w2);
  }

  /** STX framing is removed before the reply is read, when the reply has
      no surrounding whitespace of its own. */
  lemma StrippedStxFrame(x: string)
    requires x != [] && !IsWhitespace(x[0]) && !IsWhitespace(x[|x| - 1]) && x[0] != STX
    ensures Stripped([STX] + x) == x && Stripped(x) == x
  {
    var framed := [STX] + x;
    assert !IsWhitespace(framed[0]) && !IsWhitespace(framed[|framed| - 1]);
    TrimNoop(framed);
    assert StripStx(framed) == framed[1..] == x;
    TrimNoop(x);
  }

  /** A reply framed by STX parses as the reply without it. */
  lemma ParseStxFrame(x: string)
    requires x != [] && !IsWhitespace(x[0]) && !IsWhitespace(x[|x| - 1]) && x[0] != STX
    ensures Parse([STX] + x) == Parse(x)
  {
    StrippedStxFrame(x);
  }

  /** A reply of four characters or more that does not start with `x` is
      none of the single-word replies. */
  lemma NotShortReply(r: string)
    requires |r| >= 4 && r[0] != 'x'
    ensures r != [ACK] && r != "ack" && r != [XON] && r != "xon" && r != [XOFF] && r != "xoff"
  {
  }

  /** A reply opening with `DTH:` is read by the `DTH` branch. */
  lemma DispatchData(r: string)
    requires StartsWith(r, "DTH:")
    ensures Dispatch(r) == ParseData(r[4..])
  {
    NotShortReply(r);
  }

  /** A reply opening with `VER:` is read by the `VER` branch. */
  lemma DispatchVersion(r: string)
    requires StartsWith(r, "VER:")
    ensures Dispatch(r) == ParseVersion(r[4..])
  {
    NotShortReply(r);
    assert r[..4][0] == 'V';
    assert !StartsWith(r, "DTH:");
  }

  /** A reply opening with `ERR:` is read by the `ERR` branch. */
  lemma DispatchError(r: string)
    requires StartsWith(r, "ERR:")
    ensures Dispatch(r) == ParseError(r[4..])
  {
    NotShortReply(r);
    assert r[..4][0] == 'E';
    assert !StartsWith(r, "DTH:") && !StartsWith(r, "VER:");
  }

  /** The reply is an acknowledgement exactly when it is ACK or `ack`. */
  lemma ParseAcknowledge(r: string)
    ensures Dispatch(r) == Ok(Acknowledge) <==> r == [ACK] || r == "ack"
  {
  }

  /** XON and XOFF, as bytes or words, are not replies. */
  lemma ParseFlowControl(r: string)
    requires r in {[XON], "xon", [XOFF], "xoff"}
    ensures Dispatch(r) == Err(InvalidResponse)
  {
  }

  /** Everything that is neither an acknowledgement nor opens with one of
      the three reply keywords is rejected. */
  lemma ParseUnrecognised(r: string)
    requires r != [ACK] && r != "ack"
    requires !StartsWith(r, "DTH:") && !StartsWith(r, "VER:")
      && !StartsWith(r, "ERR:")
    ensures Dispatch(r) == Err(InvalidResponse)
  {
  }

  /** Text that opens with whitespace, or is empty, is no reply. */
  lemma WhitespaceLedNotReply(r: string)
    requires r == [] || IsWhitespace(r[0])
    ensures Dispatch(r) == Err(InvalidResponse)
  {
    if r != [] {
      assert r[0] != ACK && r[0] != 'a' && r[0] != XON && r[0] != XOFF && r[0] != 'x';
      assert r[0] != 'D' && r[0] != 'V' && r[0] != 'E';
      if |r| >= 4 {
        assert r[..4][0] == r[0];
      }
    }
    ParseUnrecognised(r);
  }

  /** A keyword reply that does not end with `;` is rejected. */
  lemma ParseUnterminated(r: string)
    requires StartsWith(r, "DTH:") || StartsWith(r, "VER:")
      || StartsWith(r, "ERR:")
    requires !EndsWithSemicolon(r)
    ensures Dispatch(r) == Err(InvalidResponse)
  {
    if r[4..] != [] {
      assert r[4..][|r[4..]| - 1] == r[|r| - 1];
    }
  }

  /** A `DTH` or `VER` body without exactly one comma is rejected. */
  lemma FieldCount(content: string)
    requires multiset(content)[','] != 1
    ensures ParseData(content) == Err(InvalidResponse)
    ensures ParseVersion(content) == Err(InvalidResponse)
  {
    if EndsWithSemicolon(content) {
      var body := content[..|content| - 1];
      assert content == body + [';'];
      assert multiset(content)[','] == multiset(body)[','];
    }
  }

  /** A `DTH` or `VER` reply needs exactly one comma. */
  lemma ParseFieldCount(r: string)
    requires StartsWith(r, "DTH:") || StartsWith(r, "VER:")
    requires multiset(r)[','] != 1
    ensures Dispatch(r) == Err(InvalidResponse)
  {
    assert r == r[..4] + r[4..];
    assert multiset(r[..4])[','] == 0;
    assert multiset(r)[','] == multiset(r[4..])[','];
    FieldCount(r[4..]);
    if StartsWith(r, "DTH:") {
      DispatchData(r);
    } else {
      DispatchVersion(r);
    }
  }

  /** A `DTH` body with one comma is read as an address field and a value
      field. */
  lemma DataContent(content: string, p: string, v: string)
    requires content == p + "," + v + ";"
    requires ',' !in p && ',' !in v
    ensures ParseData(content) == (
      if FromHex(p).Err? || HexByte(v).Err? then Err(InvalidAddress)
      else Ok(Data(FromHex(p).value, HexByte(v).value)))
  {
    var body := content[..|content| - 1];
    assert body == p + [','] + v;
    SplitTwo(p, v, ',');
  }

  /** A `DTH` reply with one comma gives the address and value its two
      fields spell, and `InvalidAddress` when either is not hex of the
      right width. */
  lemma ParseDataFields(r: string, p: string, v: string)
    requires r == "DTH:" + p + "," + v + ";"
    requires ',' !in p && ',' !in v
    ensures Dispatch(r).Ok? <==> FromHex(p).Ok? && HexByte(v).Ok?
    ensures Dispatch(r).Ok? ==> Dispatch(r).value == Data(FromHex(p).value, HexByte(v).value)
    ensures Dispatch(r).Err? ==> Dispatch(r).error == InvalidAddress
  {
    assert r[..4] == "DTH:" && r[4..] == p + "," + v + ";";
    DispatchData(r);
    DataContent(r[4..], p, v);
  }

  /** An accepted `DTH` reply is a 14-character frame whose fields read as
      the address and value returned. */
  lemma ParseDataShape(r: string)
    requires Dispatch(r).Ok? && Dispatch(r).value.Data?
    ensures
      && |r| == 14 && r == "DTH:" + r[4..10] + "," + r[11..13] + ";"
      && FromHex(r[4..10]) == Ok(Dispatch(r).value.address)
      && HexByte(r[11..13]) == Ok(Dispatch(r).value.value)
  {
    assert StartsWith(r, "DTH:");
    var content := r[4..];
    var body := content[..|content| - 1];
    var parts := Split(body, ',');
    assert body == parts[0] + [','] + parts[1];
    assert r == r[..4] + body + [';'];
    var n := |parts[0]|;
    assert n == 6 && |parts[1]| == 2;
    assert r[4..10] == parts[0] && r[11..13] == parts[1];
  }

  /** The body of a `VER` reply is read as two fields around its one comma. */
  lemma VersionContent(content: string, p: string, v: string)
    ensures ParseVersion(content) == Ok(Version(p, v)) <==>
      content == p + "," + v + ";" && ',' !in p && ',' !in v
  {
    if content == p + "," + v + ";" && ',' !in p && ',' !in v {
      VersionFields(content, p, v);
    }
    if ParseVersion(content) == Ok(Version(p, v)) {
      VersionFrame(content);
    }
  }

  lemma VersionFields(content: string, p: string, v: string)
    requires content == p + "," + v + ";" && ',' !in p && ',' !in v
    ensures ParseVersion(content) == Ok(Version(p, v))
  {
    var body := content[..|content| - 1];
    assert body == p + [','] + v;
    SplitTwo(p, v, ',');
  }

  lemma VersionFrame(content: string)
    requires ParseVersion(content).Ok?
    ensures var r := ParseVersion(content).value;
      content == r.product + "," + r.version + ";"
  {
    var body := content[..|content| - 1];
    var parts := Split(body, ',');
    assert body == parts[0] + [','] + parts[1];
    assert content == body + [';'];
  }

  /** Only the `VER` branch gives a version. */
  lemma DispatchVersionOnly(r: string)
    requires Dispatch(r).Ok? && Dispatch(r).value.Version?
    ensures StartsWith(r, "VER:")
  {
  }

  /** A `VER` reply is returned exactly when the text between the keyword
      and the final `;` holds one comma; the two fields are kept as they
      are, `;` included. */
  lemma ParseVersionFields(r: string, p: string, v: string)
    ensures Dispatch(r) == Ok(Version(p, v)) <==>
      r == "VER:" + p + "," + v + ";" && ',' !in p && ',' !in v
  {
    if r == "VER:" + p + "," + v + ";" && ',' !in p && ',' !in v {
      VersionReply(r, p, v);
    }
    if Dispatch(r) == Ok(Version(p, v)) {
      VersionReplyFrame(r);
    }
  }

  lemma VersionReply(r: string, p: string, v: string)
    requires r == "VER:" + p + "," + v + ";" && ',' !in p && ',' !in v
    ensures Dispatch(r) == Ok(Version(p, v))
  {
    assert r[..4] == "VER:" && r[4..] == p + "," + v + ";";
    DispatchVersion(r);
    VersionFields(r[4..], p, v);
  }

  lemma VersionReplyFrame(r: string)
    requires Dispatch(r).Ok? && Dispatch(r).value.Version?
    ensures var x := Dispatch(r).value;
      r == "VER:" + x.product + "," + x.version + ";"
  {
    DispatchVersionOnly(r);
    DispatchVersion(r);
    VersionFrame(r[4..]);
    assert r == r[..4] + r[4..];
  }

  /** An `ERR` reply carries the device error of its decimal code, and is
      rejected when the code is not a decimal `u8`. */
  lemma ParseErrorCode(r: string, d: string)
    requires r == "ERR:" + d + ";"
    ensures Dispatch(r).Ok? <==> DecimalU8(d).Ok?
    ensures Dispatch(r).Ok? ==> Dispatch(r).value == Error(DeviceError(DecimalU8(d).value))
    ensures Dispatch(r).Err? ==> Dispatch(r).error == InvalidResponse
  {
    assert r[..4] == "ERR:";
    DispatchError(r);
    var content := r[4..];
    assert content[..|content| - 1] == d;
  }

  /** An accepted `ERR` reply is `ERR:` and the decimal code of the error
      it carries, then `;`. */
  lemma ParseErrorShape(r: string)
    requires Dispatch(r).Ok? && Dispatch(r).value.Error?
    ensures
      && |r| >= 5 && r == "ERR:" + r[4..|r| - 1] + ";"
      && DecimalU8(r[4..|r| - 1]) == Ok(ErrorCode(Dispatch(r).value.reported))
  {
    assert StartsWith(r, "ERR:");
    var content := r[4..];
    assert content[..|content| - 1] == r[4..|r| - 1];
    assert r == r[..4] + r[4..|r| - 1] + [';'];
  }
}
