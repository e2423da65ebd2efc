/** Text as bytes: str.encode and bytes.decode of Python with "utf-8" (section 3 of RFC 3629). A char is
    a Unicode scalar value, so no surrogate can occur in a text. */
module Utf8 {
  import opened Common

  /** What a scalar value can be. */
  predicate IsScalar(v: int) {
    0 <= v < 0xD800 || 0xE000 <= v < 0x11_0000
  }

  function Continuation(v: nat): Byte {
    0x80 + v % 64
  }

  function EncodeScalar(v: int): (r: Bytes)
    requires IsScalar(v)
    ensures 1 <= |r| <= 4
  {
    if v < 0x80 then [v]
    else if v < 0x800 then [0xC0 + v / 64, Continuation(v)]
    else if v < 0x1_0000 then [0xE0 + v / 64 / 64, Continuation(v / 64), Continuation(v)]
    else [0xF0 + v / 64 / 64 / 64, Continuation(v / 64 / 64), Continuation(v / 64), Continuation(v)]
  }

  function Encode(s: string): Bytes {
    if s == "" then [] else EncodeScalar(s[0] as int) + Encode(s[1..])
  }

  predicate IsContinuation(b: Byte) {
    0x80 <= b < 0xC0
  }

  /** How many bytes the first byte announces; 0 for one that cannot start a character. */
  function Size(first: Byte): nat {
    if first < 0x80 then 1
    else if 0xC0 <= first < 0xE0 then 2
    else if 0xE0 <= first < 0xF0 then 3
    else if 0xF0 <= first < 0xF8 then 4
    else 0
  }

  predicate Continues(data: Bytes, size: nat) {
    size <= |data| && forall i :: 1 <= i < size ==> IsContinuation(data[i])
  }

  /** The six bits of a continuation byte. */
  function Low(b: int): int {
    b - 0x80
  }

  /** A value that fits fewer bytes, or is no scalar value, is refused. */
  function Checked(v: int, least: int): Option<int> {
    if v < least || !IsScalar(v) then None else Some(v)
  }

  /** The first character, or None. */
  function DecodeFirst(data: Bytes): (r: Option<int>)
    requires data != []
    ensures r.Some? ==> IsScalar(r.value) && 1 <= Size(data[0]) <= |data|
  {
    var size := Size(data[0]);
    if size == 0 || !Continues(data, size) then None
    else
      match size
      case 1 => Some(data[0])
      case 2 => Checked((data[0] - 0xC0) * 64 + Low(data[1]), 0x80)
      case 3 => Checked(((data[0] - 0xE0) * 64 + Low(data[1])) * 64 + Low(data[2]), 0x800)
      case _ => Checked((((data[0] - 0xF0) * 64 + Low(data[1])) * 64 + Low(data[2])) * 64 + Low(data[3]), 0x1_0000)
  }

  /** None stands for UnicodeDecodeError. */
  function Decode(data: Bytes): Option<string> {
    if data == [] then Some("")
    else
      match DecodeFirst(data)
      case None => None
      case Some(v) =>
        match Decode(data[Size(data[0])..])
        case None => None
        case Some(s) => Some([v as char] + s)
  }

  // ---- Round trip, both ways ----------------------------------------------------------------------

  /** What is encoded is decoded, whatever follows. */
  lemma DecodeFirstEncoded(v: int, rest: Bytes)
    requires IsScalar(v)
    ensures var data := EncodeScalar(v) + rest;
            Size(data[0]) == |EncodeScalar(v)| && DecodeFirst(data) == Some(v)
  {
  }

  lemma EncodeSplit(a: int, b: int, c: int, d: int)
    requires 0 <= a && 0 <= b < 64 && 0 <= c < 64 && 0 <= d < 64
    ensures (a * 64 + b) / 64 == a && (a * 64 + b) % 64 == b
    ensures ((a * 64 + b) * 64 + c) / 64 == a * 64 + b && ((a * 64 + b) * 64 + c) % 64 == c
    ensures (((a * 64 + b) * 64 + c) * 64 + d) / 64 == (a * 64 + b) * 64 + c
    ensures (((a * 64 + b) * 64 + c) * 64 + d) % 64 == d
  {
  }

  /** What is decoded was encoded: no other bytes stand for a character. */
  lemma DecodedFirstIsEncoded(data: Bytes)
    requires data != [] && DecodeFirst(data).Some?
    ensures data[..Size(data[0])] == EncodeScalar(DecodeFirst(data).value)
  {
    match Size(data[0])
    case 1 =>
    case 2 =>
      EncodeSplit(data[0] - 0xC0, Low(data[1]), 0, 0);
      assert data[..2] == [data[0], data[1]];
    case 3 =>
      EncodeSplit(data[0] - 0xE0, Low(data[1]), Low(data[2]), 0);
      assert data[..3] == [data[0], data[1], data[2]];
    case _ =>
      EncodeSplit(data[0] - 0xF0, Low(data[1]), Low(data[2]), Low(data[3]));
      assert data[..4] == [data[0], data[1], data[2], data[3]];
  }

  lemma {:induction false} RoundTrip(s: string)
    ensures Decode(Encode(s)) == Some(s)
  {
    if s != "" {
      var first, rest := EncodeScalar(s[0] as int), Encode(s[1..]);
      DecodeFirstEncoded(s[0] as int, rest);
      RoundTrip(s[1..]);
      assert (first + rest)[|first|..] == rest;
      assert s == [s[0]] + s[1..];
    }
  }

  lemma {:induction false} DecodedIsEncoded(data: Bytes)
    requires Decode(data).Some?
    ensures Encode(Decode(data).value) == data
  {
    if data != [] {
      DecodedFirstIsEncoded(data);
      var size, s := Size(data[0]), Decode(data).value;
      DecodedIsEncoded(data[size..]);
      assert s[1..] == Decode(data[size..]).value;
      assert data == data[..size] + data[size..];
    }
  }

  /** Bytes decode to a text if and only if they are its encoding, so different texts have different
      bytes. */
  lemma DecodesExactly(data: Bytes, s: string)
    ensures Decode(data) == Some(s) <==> data == Encode(s)
  {
    RoundTrip(s);
    if Decode(data) == Some(s) {
      DecodedIsEncoded(data);
    }
  }
}
