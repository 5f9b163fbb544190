/**
  Decoding the byte-list payloads. `hex(2):` and `hex:` values are lists of
  two-digit hexadecimal bytes separated by commas, possibly with spaces. A
  `hex(2):` value (REG_EXPAND_SZ) holds UTF-16LE text ended by a NUL; the
  converter turns it back into text and drops the trailing NULs. A `hex:`
  value (REG_BINARY) is handed on as the same bytes, separated by spaces.
 */
module Payload {

  import opened Wrappers
  import opened Text

  type Byte = x: int | 0 <= x < 0x100

  /** A UTF-16 code unit. */
  type CodeUnit = x: int | 0 <= x < 0x1_0000

  /** Why a byte list could not be read: `Convert.ToByte(x, 16)` throws on these. */
  datatype DecodeError =
    | EmptyByteText              // an empty piece, as between two adjacent commas
    | NotHexDigits(text: string) // a piece with a character that is no hexadecimal digit
    | ByteOverflow(text: string) // a piece whose value exceeds 0xff

  /** `Convert.ToByte(text, 16)`. Leading zeros are allowed. */
  function ParseByte(text: string): (r: Result<Byte, DecodeError>)
    ensures r.Ok? <==> text != [] && AllHexDigits(text) && HexNumber(text) < 0x100
    ensures r.Ok? ==> r.value == HexNumber(text)
  {
    if text == [] then Err(EmptyByteText)
    else if !AllHexDigits(text) then Err(NotHexDigits(text))
    else if HexNumber(text) >= 0x100 then Err(ByteOverflow(text))
    else Ok(HexNumber(text))
  }

  /** How a `.reg` export writes a byte: two lower-case hexadecimal digits. */
  function ByteText(b: Byte): (r: string)
    ensures |r| == 2 && AllHexDigits(r)
  {
    [HexChar(b / 16), HexChar(b % 16)]
  }

  /** Reading a byte back from its text gives the byte. */
  lemma ParseByteText(b: Byte)
    ensures ParseByte(ByteText(b)) == Ok(b)
  {
    var t := ByteText(b);
    assert HexNumber(t[..1]) == HexValue(t[0]) by {
      assert t[..1][..0] == [] && t[..1][0] == t[0];
    }
    assert HexNumber(t) == HexValue(t[0]) * 16 + HexValue(t[1]);
  }

  /** Any number of leading zeros may stand before the digits of a byte. */
  lemma {:induction false} ParseByteLeadingZero(text: string)
    requires text != [] && AllHexDigits(text)
    ensures ParseByte("0" + text) == ParseByte(text) || (ParseByte(text) == Err(ByteOverflow(text)) && ParseByte("0" + text) == Err(ByteOverflow("0" + text)))
  {
    HexNumberLeadingZero(text);
  }

  lemma {:induction false} HexNumberLeadingZero(text: string)
    requires AllHexDigits(text)
    ensures AllHexDigits("0" + text) && HexNumber("0" + text) == HexNumber(text)
    decreases |text|
  {
    var s := "0" + text;
    assert forall k :: 0 < k < |s| ==> s[k] == text[k - 1];
    if text != [] {
      assert s[..|s| - 1] == "0" + text[..|text| - 1];
      HexNumberLeadingZero(text[..|text| - 1]);
    }
  }

  /** The pieces read in order; the first one that fails decides the error. */
  function ParseAll(pieces: seq<string>): (r: Result<seq<Byte>, DecodeError>)
    ensures r.Ok? <==> forall k :: 0 <= k < |pieces| ==> ParseByte(pieces[k]).Ok?
    ensures r.Ok? ==> |r.value| == |pieces| && forall k :: 0 <= k < |pieces| ==> ParseByte(pieces[k]) == Ok(r.value[k])
  {
    if pieces == [] then Ok([])
    else
      match ParseByte(pieces[0])
      case Err(e) => Err(e)
      case Ok(b) =>
        match ParseAll(pieces[1..])
        case Err(e) =>
          assert forall k :: 1 <= k < |pieces| ==> pieces[k] == pieces[1..][k - 1];
          Err(e)
        case Ok(bs) =>
          assert forall k :: 1 <= k < |pieces| ==> pieces[k] == pieces[1..][k - 1];
          Ok([b] + bs)
  }

  /** The error reported is that of the first piece that cannot be read. */
  lemma {:induction false} ParseAllFirstError(pieces: seq<string>, k: nat)
    requires k < |pieces| && ParseByte(pieces[k]).Err?
    requires forall j :: 0 <= j < k ==> ParseByte(pieces[j]).Ok?
    ensures ParseAll(pieces) == Err(ParseByte(pieces[k]).error)
  {
    if k > 0 {
      assert forall j :: 0 <= j < k - 1 ==> pieces[1..][j] == pieces[j + 1];
      ParseAllFirstError(pieces[1..], k - 1);
    }
  }

  /**
    `value.Split(',').Select(x => Convert.ToByte(x, 16)).ToArray()` after
    `Regex.Replace(value, @"\s", "")`: the bytes of a byte list, one per
    piece. A list with nothing but white space is one empty piece, which
    cannot be read.
   */
  function Bytes(payload: string): (r: Result<seq<Byte>, DecodeError>)
    ensures RemoveWhiteSpace(payload) == [] ==> r == Err(EmptyByteText)
    ensures AllWhiteSpace(payload) ==> r == Err(EmptyByteText)
    ensures r.Ok? ==> |r.value| == |Split(RemoveWhiteSpace(payload), ',')| >= 1
  {
    RemoveWhiteSpaceOfWhiteSpace(payload);
    ParseAll(Split(RemoveWhiteSpace(payload), ','))
  }

  /** The texts of some bytes, in order. */
  function ByteTexts(bs: seq<Byte>): (r: seq<string>)
    ensures |r| == |bs|
  {
    seq(|bs|, k requires 0 <= k < |bs| => ByteText(bs[k]))
  }

  /** How a `.reg` export writes a byte list: the byte texts separated by commas. */
  function HexList(bs: seq<Byte>): string {
    Join(ByteTexts(bs), ',')
  }

  /** A byte list as exported reads back as the same bytes. */
  lemma BytesRoundTrip(bs: seq<Byte>)
    requires bs != []
    ensures Bytes(HexList(bs)) == Ok(bs)
  {
    var pieces := ByteTexts(bs);
    forall k | 0 <= k < |pieces|
      ensures NoWhiteSpace(pieces[k]) && ',' !in pieces[k] && ParseByte(pieces[k]) == Ok(bs[k])
    {
      ParseByteText(bs[k]);
    }
    JoinNoWhiteSpace(pieces, ',');
    SplitJoin(pieces, ',');
    var r := ParseAll(pieces);
    assert r.value == bs;
  }

  /** The pieces of a byte list as the converter matched it carry only hexadecimal digits. */
  lemma BytePiecesAreHex(payload: string)
    requires AllHexListChars(payload)
    ensures forall k :: 0 <= k < |Split(RemoveWhiteSpace(payload), ',')| ==> AllHexDigits(Split(RemoveWhiteSpace(payload), ',')[k])
  {
    var s := RemoveWhiteSpace(payload);
    var pieces := Split(s, ',');
    RemoveWhiteSpaceFrom(payload);
    forall k, i | 0 <= k < |pieces| && 0 <= i < |pieces[k]|
      ensures IsHexDigit(pieces[k][i])
    {
      JoinContains(pieces, ',', k, i);
      var c := pieces[k][i];
      assert c in s;
      assert c != ',' && !IsWhiteSpace(c);
    }
  }

  /** A byte list as matched can fail only by an empty piece or a value above 0xff. */
  lemma BytesErrors(payload: string)
    requires AllHexListChars(payload)
    ensures Bytes(payload).Err? ==> Bytes(payload).error == EmptyByteText || Bytes(payload).error.ByteOverflow?
  {
    var pieces := Split(RemoveWhiteSpace(payload), ',');
    BytePiecesAreHex(payload);
    assert Bytes(payload) == ParseAll(pieces);
    if ParseAll(pieces).Err? {
      var k := FirstFailing(pieces);
      ParseAllFirstError(pieces, k);
      assert AllHexDigits(pieces[k]);
    }
  }

  /** The position of the first piece that cannot be read. */
  lemma FirstFailing(pieces: seq<string>) returns (k: nat)
    requires ParseAll(pieces).Err?
    ensures k < |pieces| && ParseByte(pieces[k]).Err?
    ensures forall j :: 0 <= j < k ==> ParseByte(pieces[j]).Ok?
  {
    k := 0;
    while ParseByte(pieces[k]).Ok?
      invariant k < |pieces|
      invariant forall j :: 0 <= j < k ==> ParseByte(pieces[j]).Ok?
      decreases |pieces| - k
    {
      k := k + 1;
      if k == |pieces| {
        assert false;
      }
    }
  }

  // ---------------------------------------------------------------------
  // `Encoding.Unicode.GetString`: UTF-16, little-endian.
  // ---------------------------------------------------------------------

  /** The code units of a byte sequence, low byte first; an odd last byte stands alone. */
  function CodeUnits(bytes: seq<Byte>): (r: seq<CodeUnit>)
    ensures |r| == |bytes| / 2
  {
    seq(|bytes| / 2, k requires 0 <= k < |bytes| / 2 => bytes[2 * k] as int + 0x100 * bytes[2 * k + 1] as int)
  }

  /** The bytes of some code units, low byte first. */
  function UnitBytes(us: seq<CodeUnit>): (r: seq<Byte>)
    ensures |r| == 2 * |us|
  {
    seq(2 * |us|, i requires 0 <= i < 2 * |us| => if i % 2 == 0 then us[i / 2] % 0x100 else us[i / 2] / 0x100)
  }

  /** Splitting code units into bytes loses nothing. */
  lemma CodeUnitsOfUnitBytes(us: seq<CodeUnit>)
    ensures CodeUnits(UnitBytes(us)) == us
  {
    var b := UnitBytes(us);
    forall k | 0 <= k < |us|
      ensures CodeUnits(b)[k] == us[k]
    {
      assert b[2 * k] == us[k] % 0x100 && b[2 * k + 1] == us[k] / 0x100;
    }
  }

  /** Pairing bytes loses nothing either, for an even number of them. */
  lemma UnitBytesOfCodeUnits(bytes: seq<Byte>)
    requires |bytes| % 2 == 0
    ensures UnitBytes(CodeUnits(bytes)) == bytes
  {
    var us := CodeUnits(bytes);
    forall i | 0 <= i < |bytes|
      ensures UnitBytes(us)[i] == bytes[i]
    {
      var k := i / 2;
      assert us[k] == bytes[2 * k] as int + 0x100 * bytes[2 * k + 1] as int;
    }
  }

  predicate IsHighSurrogate(u: CodeUnit) { 0xD800 <= u <= 0xDBFF }
  predicate IsLowSurrogate(u: CodeUnit) { 0xDC00 <= u <= 0xDFFF }

  /** U+FFFD, what the decoder puts in place of what is not well-formed UTF-16. */
  const Replacement: char := '\U{FFFD}'

  /** The scalar value a surrogate pair stands for. */
  function PairValue(hi: CodeUnit, lo: CodeUnit): (c: char)
    requires IsHighSurrogate(hi) && IsLowSurrogate(lo)
    ensures c as int >= 0x1_0000
  {
    (0x1_0000 + (hi - 0xD800) * 0x400 + (lo - 0xDC00)) as char
  }

  /**
    The text of some code units: a surrogate pair is one character, any
    other surrogate is replaced by U+FFFD, every other unit is its own
    character.
   */
  function DecodeUnits(us: seq<CodeUnit>): (r: string)
    ensures |r| <= |us|
  {
    if us == [] then []
    else if |us| >= 2 && IsHighSurrogate(us[0]) && IsLowSurrogate(us[1]) then
      [PairValue(us[0], us[1])] + DecodeUnits(us[2..])
    else if IsHighSurrogate(us[0]) || IsLowSurrogate(us[0]) then
      [Replacement] + DecodeUnits(us[1..])
    else
      [us[0] as char] + DecodeUnits(us[1..])
  }

  /** `Encoding.Unicode.GetString(bytes)`: an odd last byte decodes to U+FFFD as well. */
  function GetString(bytes: seq<Byte>): (r: string)
    ensures |r| <= |bytes| / 2 + |bytes| % 2
  {
    DecodeUnits(CodeUnits(bytes)) + (if |bytes| % 2 == 1 then [Replacement] else [])
  }

  /** The UTF-16 code units of one character. */
  function EncodeChar(c: char): (r: seq<CodeUnit>)
    ensures |r| == (if c as int < 0x1_0000 then 1 else 2)
  {
    if c as int < 0x1_0000 then [c as int]
    else
      var v := c as int - 0x1_0000;
      [0xD800 + v / 0x400, 0xDC00 + v % 0x400]
  }

  /** The UTF-16 code units of some text. */
  function EncodeUnits(s: string): (r: seq<CodeUnit>)
    ensures |r| >= |s|
  {
    if s == [] then [] else EncodeChar(s[0]) + EncodeUnits(s[1..])
  }

  /** `Encoding.Unicode.GetBytes(s)`: how the registry stores text. */
  function Utf16Bytes(s: string): seq<Byte> {
    UnitBytes(EncodeUnits(s))
  }

  /** Decoding the code units of one character, in front of any others, gives that character first. */
  lemma DecodeEncodeChar(c: char, rest: seq<CodeUnit>)
    ensures DecodeUnits(EncodeChar(c) + rest) == [c] + DecodeUnits(rest)
  {
    var e := EncodeChar(c);
    var us := e + rest;
    if c as int < 0x1_0000 {
      assert us[0] == c as int && us[1..] == rest;
    } else {
      assert us[0] == e[0] && us[1] == e[1] && us[2..] == rest;
      assert PairValue(e[0], e[1]) == c;
    }
  }

  /** UTF-16 is decoded back to the text it encodes. */
  lemma {:induction false} DecodeEncode(s: string)
    ensures DecodeUnits(EncodeUnits(s)) == s
  {
    if s != [] {
      DecodeEncode(s[1..]);
      DecodeEncodeChar(s[0], EncodeUnits(s[1..]));
      SplitHead(s);
    }
  }

  /** The bytes of some text decode back to that text. */
  lemma GetStringRoundTrip(s: string)
    ensures GetString(Utf16Bytes(s)) == s
  {
    CodeUnitsOfUnitBytes(EncodeUnits(s));
    DecodeEncode(s);
    assert DecodeUnits(EncodeUnits(s)) + [] == s;
  }

  /** `TrimEnd('\0')`: all trailing NUL characters removed. */
  function TrimTrailingNul(s: string): (r: string)
    ensures r <= s
    ensures r == [] || r[|r| - 1] != '\0'
    ensures forall k :: |r| <= k < |s| ==> s[k] == '\0'
    decreases |s|
  {
    if s != [] && s[|s| - 1] == '\0' then TrimTrailingNul(s[..|s| - 1]) else s
  }

  /** Text without a NUL at its end survives any NULs put after it. */
  lemma {:induction false} TrimTrailingNulAfter(s: string, nuls: string)
    requires s == [] || s[|s| - 1] != '\0'
    requires forall k :: 0 <= k < |nuls| ==> nuls[k] == '\0'
    ensures TrimTrailingNul(s + nuls) == s
    decreases |nuls|
  {
    if nuls == [] {
      assert s + nuls == s;
    } else {
      var t := s + nuls;
      assert t[..|t| - 1] == s + nuls[..|nuls| - 1];
      TrimTrailingNulAfter(s, nuls[..|nuls| - 1]);
    }
  }

  /**
    The REG_EXPAND_SZ conversion: the bytes of the list, decoded as UTF-16LE,
    without trailing NULs.
   */
  function ExpandSzText(payload: string): (r: Result<string, DecodeError>)
    ensures r.Err? <==> Bytes(payload).Err?
  {
    match Bytes(payload)
    case Err(e) => Err(e)
    case Ok(bs) => Ok(TrimTrailingNul(GetString(bs)))
  }

  /**
    The converter reads back what the registry exports: text without NULs
    of its own, stored as UTF-16LE with a terminating NUL and written as a
    byte list, comes back as the same text.
   */
  lemma ExpandSzRoundTrip(s: string)
    requires s == [] || s[|s| - 1] != '\0'
    ensures ExpandSzText(HexList(Utf16Bytes(s + "\0"))) == Ok(s)
  {
    var bs := Utf16Bytes(s + "\0");
    BytesRoundTrip(bs);
    GetStringRoundTrip(s + "\0");
    TrimTrailingNulAfter(s, "\0");
  }

  /** `%` with its terminator, as an export writes it. */
  lemma ExpandSzPercent(payload: string)
    requires payload == "25,00,00,00"
    ensures ExpandSzText(payload) == Ok("%")
  {
    PercentBytes();
    PercentList();
    ExpandSzRoundTrip("%");
  }

  lemma PercentBytes()
    ensures Utf16Bytes("%\0") == [0x25, 0, 0, 0]
  {
    assert EncodeUnits("%\0") == [0x25, 0];
  }

  lemma PercentList()
    ensures HexList([0x25, 0, 0, 0]) == "25,00,00,00"
  {
    var bs: seq<Byte> := [0x25, 0, 0, 0];
    assert ByteText(0x25) == "25" && ByteText(0) == "00";
    assert ByteTexts(bs) == ["25", "00", "00", "00"];
    assert Join(["00"], ',') == "00";
  }

  /** `01,02,0a`, as an export writes it, becomes `01 02 0a`. */
  lemma BinaryDataExample(payload: string)
    requires payload == "01,02,0a"
    ensures BinaryData(payload) == "01 02 0a"
  {
    var bs: seq<Byte> := [1, 2, 10];
    ExampleTexts();
    ExampleJoins();
    BinaryDataOfHexList(bs);
  }

  lemma ExampleTexts()
    ensures ByteTexts([1, 2, 10]) == ["01", "02", "0a"]
  {
    assert ByteText(1) == "01" && ByteText(2) == "02" && ByteText(10) == "0a";
  }

  lemma ExampleJoins()
    ensures Join(["01", "02", "0a"], ',') == "01,02,0a"
    ensures Join(["01", "02", "0a"], ' ') == "01 02 0a"
  {
    assert Join(["0a"], ',') == "0a" && Join(["0a"], ' ') == "0a";
    assert Join(["02", "0a"], ',') == "02,0a" && Join(["02", "0a"], ' ') == "02 0a";
  }

  /**
    The REG_BINARY conversion: white space removed, then every comma
    replaced by a space.
   */
  function BinaryData(payload: string): (r: string)
    ensures NoWhiteSpace(payload) ==> |r| == |payload|
    ensures NoWhiteSpace(payload) ==> forall k :: 0 <= k < |payload| ==> r[k] == (if payload[k] == ',' then ' ' else payload[k])
  {
    ReplaceChar(RemoveWhiteSpace(payload), ',', ' ')
  }

  /** The binary data is the list of byte texts, each separated from the next by one space. */
  lemma BinaryDataPieces(payload: string)
    ensures BinaryData(payload) == Join(Split(RemoveWhiteSpace(payload), ','), ' ')
  {
    var pieces := Split(RemoveWhiteSpace(payload), ',');
    ReplaceCharJoin(pieces, ',', ' ');
  }

  /** The binary data of exported bytes is their texts separated by spaces. */
  lemma BinaryDataOfHexList(bs: seq<Byte>)
    requires bs != []
    ensures BinaryData(HexList(bs)) == Join(ByteTexts(bs), ' ')
  {
    BytesRoundTrip(bs);
    var pieces := ByteTexts(bs);
    forall k | 0 <= k < |pieces|
      ensures NoWhiteSpace(pieces[k]) && ',' !in pieces[k]
    {
    }
    JoinNoWhiteSpace(pieces, ',');
    SplitJoin(pieces, ',');
    BinaryDataPieces(HexList(bs));
  }

  /** The binary data of a matched byte list holds only hexadecimal digits and spaces, so no brace. */
  lemma BinaryDataBraceFree(payload: string)
    requires AllHexListChars(payload)
    ensures forall k :: 0 <= k < |BinaryData(payload)| ==> IsHexListChar(BinaryData(payload)[k])
    ensures '{' !in BinaryData(payload)
  {
    RemoveWhiteSpaceFrom(payload);
    var s := RemoveWhiteSpace(payload);
    assert forall k :: 0 <= k < |s| ==> IsHexListChar(s[k]);
  }
}
