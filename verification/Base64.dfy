/** Base64 with 64-column lines (forwarder/app/crypto/base64.py): section 4 of RFC 4648 for the
    characters, one line feed after every 64 of them and one at the end. */
module Base64 {
  import opened Common

  type Sextet = x: int | 0 <= x < 64

  // ---- Encoding ------------------------------------------------------------------------

  function SextetsOf(b0: Byte, b1: Byte, b2: Byte): (r: seq<Sextet>)
    ensures |r| == 4
  {
    [b0 / 4, b0 % 4 * 16 + b1 / 16, b1 % 16 * 4 + b2 / 64, b2 % 64]
  }

  /** Table 1 of RFC 4648. */
  function CharOf(v: Sextet): char {
    if v < 26 then 'A' + v as char
    else if v < 52 then 'a' + (v - 26) as char
    else if v < 62 then '0' + (v - 52) as char
    else if v == 62 then '+'
    else '/'
  }

  function Group(q: seq<Sextet>): (r: string)
    requires |q| == 4
    ensures |r| == 4
  {
    [CharOf(q[0]), CharOf(q[1]), CharOf(q[2]), CharOf(q[3])]
  }

  /** The last group holds one or two bytes and is filled up with '='. */
  function LastGroup(data: Bytes): (r: string)
    requires 1 <= |data| <= 2
    ensures |r| == 4
  {
    if |data| == 1 then
      var q := SextetsOf(data[0], 0, 0);
      [CharOf(q[0]), CharOf(q[1]), '=', '=']
    else
      var q := SextetsOf(data[0], data[1], 0);
      [CharOf(q[0]), CharOf(q[1]), CharOf(q[2]), '=']
  }

  function EncodeRaw(data: Bytes): string {
    if |data| == 0 then ""
    else if |data| <= 2 then LastGroup(data)
    else Group(SextetsOf(data[0], data[1], data[2])) + EncodeRaw(data[3..])
  }

  function Lines(raw: string): seq<string> {
    if raw == "" then []
    else if |raw| <= 64 then [raw]
    else [raw[..64]] + Lines(raw[64..])
  }

  function Encode(data: Bytes): string {
    Join(Lines(EncodeRaw(data)), "\n") + "\n"
  }

  // ---- Decoding ------------------------------------------------------------------------

  function Clean(s: string): string {
    if s == "" then ""
    else if s[0] in "\n\r " then Clean(s[1..])
    else [s[0]] + Clean(s[1..])
  }

  function SextetOfChar(c: char): Option<Sextet> {
    if 'A' <= c <= 'Z' then Some(c as int - 'A' as int)
    else if 'a' <= c <= 'z' then Some(c as int - 'a' as int + 26)
    else if '0' <= c <= '9' then Some(c as int - '0' as int + 52)
    else if c == '+' then Some(62)
    else if c == '/' then Some(63)
    else None
  }

  function Prepend(b: Byte, rest: Option<Bytes>): Option<Bytes> {
    match rest
    case None => None
    case Some(t) => Some([b] + t)
  }

  /** The lenient scanner behind Python's b64decode: characters outside the alphabet are skipped,
      a closing run of '=' ends the text, and a broken last group is an error (None).
      `pos` is the place inside the current group of four, `left` the bits not yet output. */
  function Scan(s: string, pos: nat, left: int, pads: nat): Option<Bytes>
    requires pos < 4
    requires 0 <= left && (pos == 1 ==> left < 64) && (pos == 2 ==> left < 16) && (pos == 3 ==> left < 4)
    decreases |s|
  {
    if s == "" then
      if pos == 0 then Some([]) else None
    else if s[0] == '=' then
      if pos >= 2 && pos + pads + 1 >= 4 then Some([])
      else Scan(s[1..], pos, left, if pos >= 2 then pads + 1 else pads)
    else
      match SextetOfChar(s[0])
      case None => Scan(s[1..], pos, left, pads)
      case Some(v) =>
        if pos == 0 then Scan(s[1..], 1, v, 0)
        else if pos == 1 then Prepend(left * 4 + v / 16, Scan(s[1..], 2, v % 16, 0))
        else if pos == 2 then Prepend(left * 16 + v / 4, Scan(s[1..], 3, v % 4, 0))
        else Prepend(left * 64 + v, Scan(s[1..], 0, 0, 0))
  }

  predicate IsAscii(s: string) {
    forall i :: 0 <= i < |s| ==> s[i] as int < 128
  }

  /** None stands for the exception that b64decode raises. */
  function Decode(encoded: string): Option<Bytes> {
    var cleaned := Clean(encoded);
    if IsAscii(cleaned) then Scan(cleaned, 0, 0, 0) else None
  }

  // ---- Round trip ----------------------------------------------------------------------

  lemma AlphabetInverse(v: Sextet)
    ensures SextetOfChar(CharOf(v)) == Some(v)
    ensures CharOf(v) as int < 128 && CharOf(v) !in "|=\n\r "
  {
  }

  lemma ScanSextet(v: Sextet, rest: string, pos: nat, left: int, pads: nat)
    requires pos < 4
    requires 0 <= left && (pos == 1 ==> left < 64) && (pos == 2 ==> left < 16) && (pos == 3 ==> left < 4)
    ensures Scan([CharOf(v)] + rest, pos, left, pads)
         == if pos == 0 then Scan(rest, 1, v, 0)
            else if pos == 1 then Prepend(left * 4 + v / 16, Scan(rest, 2, v % 16, 0))
            else if pos == 2 then Prepend(left * 16 + v / 4, Scan(rest, 3, v % 4, 0))
            else Prepend(left * 64 + v, Scan(rest, 0, 0, 0))
  {
    AlphabetInverse(v);
    assert ([CharOf(v)] + rest)[1..] == rest;
  }

  lemma ScanPrefix(q: seq<Sextet>, rest: string)
    requires 2 <= |q| <= 4
    ensures Scan([CharOf(q[0]), CharOf(q[1])] + rest, 0, 0, 0)
         == Prepend((q[0] as int) * 4 + q[1] / 16, Scan(rest, 2, q[1] % 16, 0))
  {
    var tail := [CharOf(q[1])] + rest;
    assert [CharOf(q[0]), CharOf(q[1])] + rest == [CharOf(q[0])] + tail;
    ScanSextet(q[0], tail, 0, 0, 0);
    ScanSextet(q[1], rest, 1, q[0], 0);
  }

  lemma ScanSextets(q: seq<Sextet>, rest: string)
    requires |q| == 4
    ensures Scan(Group(q) + rest, 0, 0, 0)
         == Prepend((q[0] as int) * 4 + q[1] / 16,
                    Prepend((q[1] as int) % 16 * 16 + q[2] / 4,
                             Prepend((q[2] as int) % 4 * 64 + q[3], Scan(rest, 0, 0, 0))))
  {
    var last := [CharOf(q[3])] + rest;
    var tail := [CharOf(q[2])] + last;
    assert Group(q) + rest == [CharOf(q[0]), CharOf(q[1])] + tail;
    ScanPrefix(q, tail);
    ScanSextet(q[2], last, 2, q[1] % 16, 0);
    ScanSextet(q[3], rest, 3, q[2] % 4, 0);
  }

  lemma Ungroup(b0: Byte, b1: Byte, b2: Byte)
    ensures var q: seq<int> := SextetsOf(b0, b1, b2);
            && b0 == q[0] * 4 + q[1] / 16
            && b1 == q[1] % 16 * 16 + q[2] / 4
            && b2 == q[2] % 4 * 64 + q[3]
  {
  }

  lemma ScanGroup(b0: Byte, b1: Byte, b2: Byte, rest: string)
    ensures Scan(Group(SextetsOf(b0, b1, b2)) + rest, 0, 0, 0)
         == Prepend(b0, Prepend(b1, Prepend(b2, Scan(rest, 0, 0, 0))))
  {
    ScanSextets(SextetsOf(b0, b1, b2), rest);
    Ungroup(b0, b1, b2);
  }

  /** Padding that completes a group ends the text, whatever follows. */
  lemma ScanOneByte(b0: Byte, rest: string)
    ensures Scan(LastGroup([b0]) + rest, 0, 0, 0) == Some([b0])
  {
    var q := SextetsOf(b0, 0, 0);
    var tail := "==" + rest;
    ScanPrefix(q, tail);
    assert LastGroup([b0]) + rest == [CharOf(q[0]), CharOf(q[1])] + tail;
    assert tail[1..] == "=" + rest;
    assert Scan(tail, 2, q[1] % 16, 0) == Some([]);
    Ungroup(b0, 0, 0);
    assert [b0] == [b0] + [];
  }

  lemma ScanTwoBytes(b0: Byte, b1: Byte, rest: string)
    ensures Scan(LastGroup([b0, b1]) + rest, 0, 0, 0) == Some([b0, b1])
  {
    var q := SextetsOf(b0, b1, 0);
    var end := "=" + rest;
    var tail := [CharOf(q[2])] + end;
    ScanPrefix(q, tail);
    ScanSextet(q[2], end, 2, q[1] % 16, 0);
    assert LastGroup([b0, b1]) + rest == [CharOf(q[0]), CharOf(q[1])] + tail;
    assert Scan(end, 3, q[2] % 4, 0) == Some([]);
    Ungroup(b0, b1, 0);
    assert [b0, b1] == [b0] + ([b1] + []);
  }

  lemma PrependThree(data: Bytes)
    requires |data| >= 3
    ensures Prepend(data[0], Prepend(data[1], Prepend(data[2], Some(data[3..])))) == Some(data)
  {
    assert data == [data[0]] + ([data[1]] + ([data[2]] + data[3..]));
  }

  /** What was decoded before, and the rest after it. */
  function Before(data: Bytes, rest: Option<Bytes>): Option<Bytes> {
    match rest
    case None => None
    case Some(more) => Some(data + more)
  }

  lemma PrependBefore(data: Bytes, rest: Option<Bytes>)
    requires |data| >= 3
    ensures Prepend(data[0], Prepend(data[1], Prepend(data[2], Before(data[3..], rest)))) == Before(data, rest)
  {
    if rest.Some? {
      assert data + rest.value == [data[0]] + ([data[1]] + ([data[2]] + (data[3..] + rest.value)));
    }
  }

  /** Encoded data is read back, whatever follows it: a padded text ends there, and after an unpadded one the
      rest is read as if it stood alone. */
  lemma {:induction false} ScanEncoded(data: Bytes, rest: string)
    ensures Scan(EncodeRaw(data) + rest, 0, 0, 0)
         == if |data| % 3 != 0 then Some(data) else Before(data, Scan(rest, 0, 0, 0))
  {
    if |data| == 0 {
      assert EncodeRaw(data) + rest == rest;
      assert Scan(rest, 0, 0, 0).Some? ==> data + Scan(rest, 0, 0, 0).value == Scan(rest, 0, 0, 0).value;
    } else if |data| == 1 {
      ScanOneByte(data[0], rest);
      assert data == [data[0]];
    } else if |data| == 2 {
      ScanTwoBytes(data[0], data[1], rest);
      assert data == [data[0], data[1]];
    } else {
      ScanEncodedGroup(data, rest);
      ScanEncoded(data[3..], rest);
      ThreeMore(data, Scan(rest, 0, 0, 0));
    }
  }

  lemma ThreeMore(data: Bytes, rest: Option<Bytes>)
    requires |data| >= 3
    ensures |data[3..]| % 3 == |data| % 3
    ensures Prepend(data[0], Prepend(data[1], Prepend(data[2], Some(data[3..])))) == Some(data)
    ensures Prepend(data[0], Prepend(data[1], Prepend(data[2], Before(data[3..], rest)))) == Before(data, rest)
  {
    PrependThree(data);
    PrependBefore(data, rest);
  }

  lemma ScanEncodedGroup(data: Bytes, rest: string)
    requires |data| >= 3
    ensures Scan(EncodeRaw(data) + rest, 0, 0, 0)
         == Prepend(data[0], Prepend(data[1], Prepend(data[2], Scan(EncodeRaw(data[3..]) + rest, 0, 0, 0))))
  {
    var later := EncodeRaw(data[3..]) + rest;
    EncodedGroup(data, rest);
    ScanGroup(data[0], data[1], data[2], later);
  }

  lemma EncodedGroup(data: Bytes, rest: string)
    requires |data| >= 3
    ensures EncodeRaw(data) + rest == Group(SextetsOf(data[0], data[1], data[2])) + (EncodeRaw(data[3..]) + rest)
  {
  }

  lemma ScanEncodeRaw(data: Bytes)
    ensures Scan(EncodeRaw(data), 0, 0, 0) == Some(data)
  {
    ScanEncoded(data, "");
    assert EncodeRaw(data) + "" == EncodeRaw(data);
    assert Scan("", 0, 0, 0) == Some([]) && data + [] == data;
  }

  /** What the raw text may contain: printable ASCII only, no blank and no field separator. */
  predicate Plain(s: string) {
    forall i :: 0 <= i < |s| ==> s[i] as int < 128 && s[i] !in "|\n\r "
  }

  lemma PlainGroup(q: seq<Sextet>, chars: string)
    requires |q| == |chars| == 4
    requires forall i :: 0 <= i < 4 ==> chars[i] == CharOf(q[i]) || chars[i] == '='
    ensures Plain(chars)
  {
    forall i | 0 <= i < 4
      ensures chars[i] as int < 128 && chars[i] !in "|\n\r "
    {
      AlphabetInverse(q[i]);
    }
  }

  lemma {:induction false} RawIsPlain(data: Bytes)
    ensures Plain(EncodeRaw(data))
  {
    if |data| == 0 {
    } else if |data| == 1 {
      PlainGroup(SextetsOf(data[0], 0, 0), LastGroup(data));
    } else if |data| == 2 {
      PlainGroup(SextetsOf(data[0], data[1], 0), LastGroup(data));
    } else {
      var q := SextetsOf(data[0], data[1], data[2]);
      PlainGroup(q, Group(q));
      RawIsPlain(data[3..]);
    }
  }

  lemma CeilByThree(n: int)
    ensures CeilDiv(n + 3, 3) == CeilDiv(n, 3) + 1
  {
  }

  lemma {:induction false} RawLength(data: Bytes)
    ensures |EncodeRaw(data)| == 4 * CeilDiv(|data|, 3)
  {
    if |data| > 2 {
      RawLength(data[3..]);
      CeilByThree(|data| - 3);
    }
  }

  lemma {:induction false} CleanConcat(a: string, b: string)
    ensures Clean(a + b) == Clean(a) + Clean(b)
  {
    if a == "" {
      assert a + b == b;
    } else {
      assert (a + b)[1..] == a[1..] + b;
      CleanConcat(a[1..], b);
    }
  }

  lemma {:induction false} CleanPlain(s: string)
    requires Plain(s)
    ensures Clean(s) == s
  {
    if s != "" {
      CleanPlain(s[1..]);
      assert s == [s[0]] + s[1..];
    }
  }

  /** Joining the lines and ending with a line feed hides nothing from the decoder. */
  lemma {:induction false} CleanLines(raw: string)
    requires Plain(raw)
    ensures Clean(Join(Lines(raw), "\n") + "\n") == raw
  {
    if |raw| <= 64 {
      CleanConcat(raw, "\n");
      CleanPlain(raw);
      assert Clean("\n") == "";
      assert Join(Lines(raw), "\n") == raw;
    } else {
      var head, tail := raw[..64], raw[64..];
      var joined := Join(Lines(tail), "\n");
      assert Lines(raw)[1..] == Lines(tail);
      assert Join(Lines(raw), "\n") + "\n" == head + ("\n" + (joined + "\n"));
      CleanConcat(head, "\n" + (joined + "\n"));
      CleanConcat("\n", joined + "\n");
      CleanPlain(head);
      assert Clean("\n") == "";
      CleanLines(tail);
      assert raw == head + tail;
    }
  }

  /** Decoding undoes encoding on every byte string, the empty one included. */
  lemma RoundTrip(data: Bytes)
    ensures Decode(Encode(data)) == Some(data)
  {
    RawIsPlain(data);
    CleanLines(EncodeRaw(data));
    ScanEncodeRaw(data);
  }

  // ---- Texts that are not of this encoder's making ---------------------------------------------------

  predicate IsLetter(c: char) {
    'A' <= c <= 'Z' || 'a' <= c <= 'z' || '0' <= c <= '9' || c == '+' || c == '/'
  }

  /** Without what is neither of the alphabet nor a pad. */
  function Known(s: string): string {
    if s == "" then "" else (if IsLetter(s[0]) || s[0] == '=' then [s[0]] else "") + Known(s[1..])
  }

  /** Foreign characters make no difference. */
  lemma {:induction false} ScanSkipsForeign(s: string, pos: nat, left: int, pads: nat)
    requires pos < 4
    requires 0 <= left && (pos == 1 ==> left < 64) && (pos == 2 ==> left < 16) && (pos == 3 ==> left < 4)
    ensures Scan(Known(s), pos, left, pads) == Scan(s, pos, left, pads)
    decreases |s|
  {
    if s != "" {
      assert IsLetter(s[0]) <==> SextetOfChar(s[0]).Some?;
      if IsLetter(s[0]) || s[0] == '=' {
        assert Known(s)[1..] == Known(s[1..]);
      }
      if s[0] == '=' {
        if !(pos >= 2 && pos + pads + 1 >= 4) {
          ScanSkipsForeign(s[1..], pos, left, if pos >= 2 then pads + 1 else pads);
        }
      } else if IsLetter(s[0]) {
        var v := SextetOfChar(s[0]).value;
        if pos == 0 {
          ScanSkipsForeign(s[1..], 1, v, 0);
        } else if pos == 1 {
          ScanSkipsForeign(s[1..], 2, v % 16, 0);
        } else if pos == 2 {
          ScanSkipsForeign(s[1..], 3, v % 4, 0);
        } else {
          ScanSkipsForeign(s[1..], 0, 0, 0);
        }
      } else {
        assert Known(s) == Known(s[1..]);
        ScanSkipsForeign(s[1..], pos, left, pads);
      }
    }
  }

  function ValueOf(c: char): Sextet
    requires IsLetter(c)
  {
    CharInverse(c);
    SextetOfChar(c).value
  }

  function Sextets(s: string): (q: seq<Sextet>)
    requires |s| >= 4 && forall i :: 0 <= i < 4 ==> IsLetter(s[i])
    ensures |q| == 4
  {
    [ValueOf(s[0]), ValueOf(s[1]), ValueOf(s[2]), ValueOf(s[3])]
  }

  lemma GroupOfSextets(s: string)
    requires |s| >= 4 && forall i :: 0 <= i < 4 ==> IsLetter(s[i])
    ensures s == Group(Sextets(s)) + s[4..]
  {
    CharInverse(s[0]);
    CharInverse(s[1]);
    CharInverse(s[2]);
    CharInverse(s[3]);
    assert s[..4] == [s[0], s[1], s[2], s[3]];
    assert s == s[..4] + s[4..];
  }

  /** The three bytes of a group. */
  function Ungrouped(q: seq<Sextet>): Bytes
    requires |q| == 4
  {
    [(q[0] as int) * 4 + q[1] / 16, (q[1] as int) % 16 * 16 + q[2] / 4, (q[2] as int) % 4 * 64 + q[3]]
  }

  /** The first group of a text and the rest. */
  lemma FirstGroup(s: string)
    requires |s| >= 4 && forall i :: 0 <= i < 4 ==> IsLetter(s[i])
    ensures Scan(s, 0, 0, 0) == Before(Ungrouped(Sextets(s)), Scan(s[4..], 0, 0, 0))
  {
    GroupOfSextets(s);
    ScanUngroups(s, Sextets(s), s[4..]);
  }

  lemma ScanUngroups(s: string, q: seq<Sextet>, rest: string)
    requires |q| == 4 && s == Group(q) + rest
    ensures Scan(s, 0, 0, 0) == Before(Ungrouped(q), Scan(rest, 0, 0, 0))
  {
    ScanSextets(q, rest);
    ThreeBefore(Ungrouped(q), Scan(rest, 0, 0, 0));
  }

  lemma ThreeBefore(three: Bytes, rest: Option<Bytes>)
    requires |three| == 3
    ensures Prepend(three[0], Prepend(three[1], Prepend(three[2], rest))) == Before(three, rest)
  {
    if rest.Some? {
      assert three + rest.value == [three[0]] + ([three[1]] + ([three[2]] + rest.value));
    }
  }

  lemma BrokenGroup(s: string)
    requires 0 < |s| < 4 && forall i :: 0 <= i < |s| ==> IsLetter(s[i])
    ensures Scan(s, 0, 0, 0) == None
  {
    CharInverse(s[0]);
    var v := SextetOfChar(s[0]).value;
    if |s| == 1 {
      assert s[1..] == "";
    } else {
      CharInverse(s[1]);
      var w, tail := SextetOfChar(s[1]).value, s[1..];
      assert tail[0] == s[1];
      if |s| == 2 {
        assert tail[1..] == "" && Scan("", 2, w % 16, 0) == None;
      } else {
        CharInverse(s[2]);
        assert tail[1..][0] == s[2] && tail[1..][1..] == "";
        assert Scan(tail[1..], 2, w % 16, 0) == None;
      }
      assert Scan(tail, 1, v, 0) == None;
    }
  }

  /** A text of the alphabet alone decodes if and only if it consists of whole groups, and then it is the
      encoding of what it decodes to. */
  lemma {:induction false} LettersDecodeExactly(s: string)
    requires forall i :: 0 <= i < |s| ==> IsLetter(s[i])
    ensures Scan(s, 0, 0, 0).Some? <==> |s| % 4 == 0
    ensures |s| % 4 == 0 ==> EncodeRaw(Scan(s, 0, 0, 0).value) == s
  {
    if |s| >= 4 {
      LettersDecodeExactly(s[4..]);
      FirstGroup(s);
      GroupOfSextets(s);
      if |s| % 4 == 0 {
        GroupEncodes(Sextets(s), Scan(s[4..], 0, 0, 0).value);
      }
    } else if |s| > 0 {
      BrokenGroup(s);
    }
  }

  lemma CharInverse(c: char)
    requires IsLetter(c)
    ensures SextetOfChar(c).Some? && CharOf(SextetOfChar(c).value) == c
  {
  }

  /** A group encodes back. */
  lemma GroupEncodes(q: seq<Sextet>, more: Bytes)
    requires |q| == 4
    ensures EncodeRaw(Ungrouped(q) + more) == Group(q) + EncodeRaw(more)
  {
    var three := Ungrouped(q);
    var data := three + more;
    assert data[3..] == more && data[0] == three[0] && data[1] == three[1] && data[2] == three[2];
    assert SextetsOf(three[0], three[1], three[2]) == q;
  }

  /** The decoder skips blanks and foreign characters, ends at a completed padding, and raises for a character
      beyond ASCII and for a broken group only. */
  lemma DecodeSkipsForeign(s: string)
    ensures Decode(s) == if IsAscii(Clean(s)) then Scan(Known(Clean(s)), 0, 0, 0) else None
    ensures IsAscii(s) ==> Decode(s) == Scan(Known(s), 0, 0, 0)
  {
    ScanSkipsForeign(Clean(s), 0, 0, 0);
    CleanKeepsKnown(s);
  }

  lemma {:induction false} CleanKeepsKnown(s: string)
    ensures Known(Clean(s)) == Known(s)
    ensures IsAscii(s) ==> IsAscii(Clean(s))
  {
    if s != "" {
      CleanKeepsKnown(s[1..]);
      if s[0] !in "\n\r " {
        assert Clean(s)[1..] == Clean(s[1..]);
      }
    }
  }

  lemma EncodeInjective(a: Bytes, b: Bytes)
    requires Encode(a) == Encode(b)
    ensures a == b
  {
    RoundTrip(a);
    RoundTrip(b);
  }

  // ---- Shape of the output --------------------------------------------------------------

  lemma CeilBySixtyFour(n: int)
    ensures CeilDiv(n + 64, 64) == CeilDiv(n, 64) + 1
  {
  }

  lemma {:induction false} LinesCount(raw: string)
    ensures |Lines(raw)| == CeilDiv(|raw|, 64)
    ensures |Join(Lines(raw), "\n")| == |raw| + Max(0, |Lines(raw)| - 1)
  {
    if |raw| > 64 {
      var tail := raw[64..];
      LinesCount(tail);
      CeilBySixtyFour(|tail|);
      assert Lines(raw)[1..] == Lines(tail);
    }
  }

  /** Line i of a text, cut out directly. */
  function LineAt(raw: string, i: nat): string
    requires 64 * i <= |raw|
  {
    raw[64 * i..Min(64 * i + 64, |raw|)]
  }

  lemma LineAtTail(raw: string, i: nat)
    requires |raw| > 64 && 64 * (i + 1) <= |raw|
    ensures LineAt(raw[64..], i) == LineAt(raw, i + 1)
  {
    var tail, n := raw[64..], Min(64, |raw| - 64 * (i + 1));
    assert Min(64 * i + 64, |tail|) == 64 * i + n;
    assert Min(64 * (i + 1) + 64, |raw|) == 64 * (i + 1) + n;
  }

  lemma {:induction false} LinesAre(raw: string)
    ensures forall i: nat :: i < |Lines(raw)| ==> 64 * i < |raw| && Lines(raw)[i] == LineAt(raw, i)
  {
    if |raw| > 64 {
      var tail := raw[64..];
      LinesAre(tail);
      forall i: nat | i < |Lines(raw)|
        ensures 64 * i < |raw| && Lines(raw)[i] == LineAt(raw, i)
      {
        if i > 0 {
          assert Lines(raw)[i] == Lines(tail)[i - 1];
          LineAtTail(raw, i - 1);
        }
      }
    }
  }

  /** Every line but the last has 64 characters and the last has between 1 and 64; the length is
      4*ceil(n/3) plus one line feed a line, and one line feed alone for no data. */
  lemma EncodedShape(data: Bytes)
    ensures var lines := Lines(EncodeRaw(data));
            && Encode(data) == Join(lines, "\n") + "\n"
            && (forall i :: 0 <= i < |lines| - 1 ==> |lines[i]| == 64)
            && (lines != [] ==> 1 <= |lines[|lines| - 1]| <= 64)
    ensures |Encode(data)| == 4 * CeilDiv(|data|, 3) + Max(1, CeilDiv(4 * CeilDiv(|data|, 3), 64))
  {
    var raw := EncodeRaw(data);
    RawLength(data);
    LinesCount(raw);
    LinesAre(raw);
    forall i | 0 <= i < |Lines(raw)| - 1
      ensures |Lines(raw)[i]| == 64
    {
      assert 64 * (i + 1) < |raw|;
    }
  }

  lemma {:induction false} JoinAvoids(parts: seq<string>, c: char)
    requires forall i :: 0 <= i < |parts| ==> c !in parts[i]
    requires c != '\n'
    ensures c !in Join(parts, "\n")
  {
    if |parts| > 1 {
      JoinAvoids(parts[1..], c);
    }
  }

  /** No encoded field can contain the separator of the signing payload. */
  lemma EncodeHasNoBar(data: Bytes)
    ensures '|' !in Encode(data)
  {
    RawIsPlain(data);
    LinesAre(EncodeRaw(data));
    JoinAvoids(Lines(EncodeRaw(data)), '|');
  }
}
