/** The envelope, its message types and the text that is signed
    (forwarder/app/crypto/envelope.py, agent/crypto/src/envelope.cpp). */
module Envelope {
  import opened Common

  // ---- Message types -------------------------------------------------------------------

  datatype MessageType =
    | BUILD_TRIGGER
    | BUILD_RESULT
    | SENSITIVE_REVIEW_REQ
    | SECOND_REVIEW_RESULT
    | HEARTBEAT
    | ACK

  function ToString(t: MessageType): string {
    match t
    case BUILD_TRIGGER => "BUILD_TRIGGER"
    case BUILD_RESULT => "BUILD_RESULT"
    case SENSITIVE_REVIEW_REQ => "SENSITIVE_REVIEW_REQ"
    case SECOND_REVIEW_RESULT => "SECOND_REVIEW_RESULT"
    case HEARTBEAT => "HEARTBEAT"
    case ACK => "ACK"
  }

  /** None stands for ValueError (Python) and invalid_argument (C++). */
  function Parse(s: string): Option<MessageType> {
    if s == "BUILD_TRIGGER" then Some(BUILD_TRIGGER)
    else if s == "BUILD_RESULT" then Some(BUILD_RESULT)
    else if s == "SENSITIVE_REVIEW_REQ" then Some(SENSITIVE_REVIEW_REQ)
    else if s == "SECOND_REVIEW_RESULT" then Some(SECOND_REVIEW_RESULT)
    else if s == "HEARTBEAT" then Some(HEARTBEAT)
    else if s == "ACK" then Some(ACK)
    else None
  }

  /** Parsing and printing are inverse in both directions, and no name contains a separator. */
  lemma ParseExactlyInvertsToString(s: string, t: MessageType)
    ensures Parse(s) == Some(t) <==> s == ToString(t)
    ensures '|' !in ToString(t)
  {
    var names := ["BUILD_TRIGGER", "BUILD_RESULT", "SENSITIVE_REVIEW_REQ", "SECOND_REVIEW_RESULT", "HEARTBEAT", "ACK"];
    assert names[0][6] == 'T' && names[1][6] == 'R';
    assert names[2][2] == 'N' && names[3][2] == 'C';
  }

  // ---- Decimal printing ----------------------------------------------------------------

  function DigitChar(d: nat): char
    requires d < 10
  {
    '0' + d as char
  }

  function NatToString(n: nat): string {
    if n < 10 then [DigitChar(n)] else NatToString(n / 10) + [DigitChar(n % 10)]
  }

  /** Python's str(n), C++'s std::to_string(n). */
  function IntToString(n: int): string {
    if n < 0 then "-" + NatToString(-n) else NatToString(n)
  }

  lemma {:induction false} NatToStringDigits(n: nat)
    ensures NatToString(n) != ""
    ensures forall i :: 0 <= i < |NatToString(n)| ==> '0' <= NatToString(n)[i] <= '9'
  {
    if n >= 10 {
      NatToStringDigits(n / 10);
    }
  }

  /** The value of a run of decimal digits. */
  function ReadDecimal(s: string): int {
    if s == "" then 0 else ReadDecimal(s[..|s| - 1]) * 10 + (s[|s| - 1] as int - '0' as int)
  }

  /** Decimal notation: the digits read back in base 10 give the number, and no digit is superfluous. */
  lemma {:induction false} DigitsReadBack(n: nat)
    ensures ReadDecimal(NatToString(n)) == n
    ensures |NatToString(n)| > 1 ==> NatToString(n)[0] != '0'
  {
    if n < 10 {
      assert NatToString(n)[..0] == "";
      assert ReadDecimal("") == 0;
    } else {
      var s := NatToString(n);
      DigitsReadBack(n / 10);
      NatToStringDigits(n / 10);
      assert s[..|s| - 1] == NatToString(n / 10);
      if |NatToString(n / 10)| == 1 {
        assert NatToString(n / 10)[..0] == "";
        assert ReadDecimal(NatToString(n / 10)) == NatToString(n / 10)[0] as int - '0' as int;
      }
    }
  }

  /** The printed form of a number: an optional minus and its digits. */
  lemma PrintsDecimal(n: int)
    ensures var s := IntToString(n);
            if n < 0 then s[0] == '-' && ReadDecimal(s[1..]) == -n else ReadDecimal(s) == n && s[0] != '-'
  {
    DigitsReadBack(if n < 0 then -n else n);
    NatToStringDigits(if n < 0 then -n else n);
    if n < 0 {
      assert IntToString(n)[1..] == NatToString(-n);
    }
  }

  lemma {:induction false} NatToStringInjective(m: nat, n: nat)
    requires NatToString(m) == NatToString(n)
    ensures m == n
  {
    var s := NatToString(m);
    var last := s[|s| - 1];
    assert last == DigitChar(m % 10) == DigitChar(n % 10);
    if m < 10 || n < 10 {
      NatToStringDigits(m / 10);
      NatToStringDigits(n / 10);
    } else {
      assert NatToString(m / 10) == s[..|s| - 1] == NatToString(n / 10);
      NatToStringInjective(m / 10, n / 10);
    }
  }

  lemma IntToStringInjective(m: int, n: int)
    requires IntToString(m) == IntToString(n)
    ensures m == n
  {
    NatToStringDigits(if m < 0 then -m else m);
    NatToStringDigits(if n < 0 then -n else n);
    assert (m < 0) == (IntToString(m)[0] == '-');
    assert (n < 0) == (IntToString(n)[0] == '-');
    if m < 0 {
      assert IntToString(m)[1..] == NatToString(-m);
      assert IntToString(n)[1..] == NatToString(-n);
      NatToStringInjective(-m, -n);
    } else {
      NatToStringInjective(m, n);
    }
  }

  lemma IntToStringHasNoBar(n: int)
    ensures '|' !in IntToString(n)
  {
    NatToStringDigits(if n < 0 then -n else n);
  }

  // ---- The envelope and its signing payload ----------------------------------------------

  datatype CryptoEnvelope = CryptoEnvelope(
    msgId: string,
    timestamp: int,
    nonce: string,
    mtype: string,
    iv: string,
    ciphertext: string,
    tag: string,
    signature: string
  )

  function SignedFields(e: CryptoEnvelope): seq<string> {
    [e.msgId, IntToString(e.timestamp), e.nonce, e.mtype, e.iv, e.ciphertext, e.tag]
  }

  function SigningPayload(e: CryptoEnvelope): string {
    Join(SignedFields(e), "|")
  }

  /** The C++ twin: one concatenation. */
  function Concatenated(e: CryptoEnvelope): string {
    e.msgId + "|" + IntToString(e.timestamp) + "|" + e.nonce + "|" + e.mtype
    + "|" + e.iv + "|" + e.ciphertext + "|" + e.tag
  }

  lemma {:induction false} JoinSnoc(parts: seq<string>, last: string)
    requires parts != []
    ensures Join(parts + [last], "|") == Join(parts, "|") + "|" + last
  {
    JoinConcat(parts, [last]);
  }

  lemma JoinFour(a: string, b: string, c: string, d: string)
    ensures Join([a, b, c, d], "|") == a + "|" + b + "|" + c + "|" + d
  {
    JoinSnoc([a], b);
    JoinSnoc([a, b], c);
    JoinSnoc([a, b, c], d);
    assert [a] + [b] == [a, b] && [a, b] + [c] == [a, b, c] && [a, b, c] + [d] == [a, b, c, d];
  }

  /** Both languages sign the same text. */
  lemma TwinsSignTheSame(e: CryptoEnvelope)
    ensures SigningPayload(e) == Concatenated(e)
  {
    var first := [e.msgId, IntToString(e.timestamp), e.nonce, e.mtype];
    JoinFour(e.msgId, IntToString(e.timestamp), e.nonce, e.mtype);
    JoinSnoc(first, e.iv);
    JoinSnoc(first + [e.iv], e.ciphertext);
    JoinSnoc(first + [e.iv] + [e.ciphertext], e.tag);
    assert SignedFields(e) == first + [e.iv] + [e.ciphertext] + [e.tag];
  }

  /** The seven signed fields agree; the signature itself may differ. */
  predicate SameSigned(e: CryptoEnvelope, f: CryptoEnvelope) {
    && e.msgId == f.msgId && e.timestamp == f.timestamp && e.nonce == f.nonce && e.mtype == f.mtype
    && e.iv == f.iv && e.ciphertext == f.ciphertext && e.tag == f.tag
  }

  predicate BarFree(e: CryptoEnvelope) {
    '|' !in e.msgId && '|' !in e.nonce && '|' !in e.mtype && '|' !in e.iv && '|' !in e.ciphertext && '|' !in e.tag
  }

  // ---- Splitting at the separator --------------------------------------------------------

  /** Python's `s.split("|")`. */
  function Split(s: string): (r: seq<string>)
    ensures |r| >= 1
  {
    if s == "" then [""]
    else if s[0] == '|' then [""] + Split(s[1..])
    else
      var r := Split(s[1..]);
      [[s[0]] + r[0]] + r[1..]
  }

  function SplitAll(parts: seq<string>): seq<string> {
    if parts == [] then [] else Split(parts[0]) + SplitAll(parts[1..])
  }

  lemma {:induction false} SplitAtBar(a: string, b: string)
    ensures Split(a + "|" + b) == Split(a) + Split(b)
  {
    if a == "" {
      assert a + "|" + b == "|" + b;
      assert ("|" + b)[1..] == b;
    } else {
      assert (a + "|" + b)[1..] == a[1..] + "|" + b;
      SplitAtBar(a[1..], b);
    }
  }

  lemma {:induction false} SplitJoin(parts: seq<string>)
    requires parts != []
    ensures Split(Join(parts, "|")) == SplitAll(parts)
  {
    if |parts| == 1 {
      assert SplitAll(parts[1..]) == [];
    } else {
      SplitAtBar(parts[0], Join(parts[1..], "|"));
      SplitJoin(parts[1..]);
    }
  }

  /** A text without the separator is one segment; one with it is at least two. */
  lemma {:induction false} SplitSegments(s: string)
    ensures '|' !in s ==> Split(s) == [s]
    ensures '|' in s ==> |Split(s)| >= 2
  {
    if s != "" {
      SplitSegments(s[1..]);
      assert s == [s[0]] + s[1..];
    }
  }

  /** Counting separators: the segments are at least as many as the parts, and as many only
      when no part contains one, in which case they are the parts. */
  lemma {:induction false} SplitAllCounts(parts: seq<string>)
    ensures |SplitAll(parts)| >= |parts|
    ensures |SplitAll(parts)| == |parts| ==> SplitAll(parts) == parts
    ensures (forall i :: 0 <= i < |parts| ==> '|' !in parts[i]) ==> SplitAll(parts) == parts
  {
    if parts != [] {
      SplitSegments(parts[0]);
      SplitAllCounts(parts[1..]);
      assert parts == [parts[0]] + parts[1..];
    }
  }

  /** The payload of an envelope without separators in its fields belongs to no other envelope,
      whatever that other one contains. */
  lemma PayloadUnambiguous(e: CryptoEnvelope, f: CryptoEnvelope)
    requires BarFree(e)
    requires SigningPayload(e) == SigningPayload(f)
    ensures SameSigned(e, f)
  {
    IntToStringHasNoBar(e.timestamp);
    var a, b := SignedFields(e), SignedFields(f);
    SplitJoin(a);
    SplitJoin(b);
    SplitAllCounts(a);
    SplitAllCounts(b);
    assert a == b;
    assert a[1] == b[1];
    IntToStringInjective(e.timestamp, f.timestamp);
    assert a[0] == b[0] && a[2] == b[2] && a[3] == b[3] && a[4] == b[4] && a[5] == b[5] && a[6] == b[6];
  }

  // ---- Exactly which envelopes are unambiguous --------------------------------------------

  ghost predicate Unambiguous(e: CryptoEnvelope) {
    forall f: CryptoEnvelope :: SigningPayload(f) == SigningPayload(e) ==> SameSigned(f, e)
  }

  ghost predicate DecimalText(s: string) {
    exists n: int :: IntToString(n) == s
  }

  /** Separators are harmless only inside msg_id, and there only when no segment after one of
      them could be read as the timestamp. */
  ghost predicate SafelySeparated(e: CryptoEnvelope) {
    && '|' !in e.nonce && '|' !in e.mtype && '|' !in e.iv && '|' !in e.ciphertext && '|' !in e.tag
    && forall i :: 1 <= i < |Split(e.msgId)| ==> !DecimalText(Split(e.msgId)[i])
  }

  lemma JoinOntoFirst(c: char, r: seq<string>)
    requires r != []
    ensures Join([[c] + r[0]] + r[1..], "|") == [c] + Join(r, "|")
  {
    assert ([[c] + r[0]] + r[1..])[1..] == r[1..];
    if |r| > 1 {
      assert ([c] + r[0]) + "|" + Join(r[1..], "|") == [c] + (r[0] + "|" + Join(r[1..], "|"));
    }
  }

  lemma JoinOntoEmpty(r: seq<string>)
    requires r != []
    ensures Join([""] + r, "|") == "|" + Join(r, "|")
  {
    assert ([""] + r)[1..] == r;
    assert "" + "|" == "|";
  }

  lemma {:induction false} JoinSplit(s: string)
    ensures Join(Split(s), "|") == s
  {
    if s != "" {
      JoinSplit(s[1..]);
      assert s == [s[0]] + s[1..];
      if s[0] == '|' {
        JoinOntoEmpty(Split(s[1..]));
      } else {
        JoinOntoFirst(s[0], Split(s[1..]));
      }
    }
  }

  lemma {:induction false} JoinConcat(a: seq<string>, b: seq<string>)
    requires a != [] && b != []
    ensures Join(a + b, "|") == Join(a, "|") + "|" + Join(b, "|")
  {
    assert (a + b)[1..] == a[1..] + b;
    if |a| > 1 {
      JoinConcat(a[1..], b);
    }
  }

  lemma JoinNestedFirst(inner: seq<string>, b: seq<string>)
    requires inner != []
    ensures Join([Join(inner, "|")] + b, "|") == Join(inner + b, "|")
  {
    if b == [] {
      assert inner + b == inner;
    } else {
      JoinConcat([Join(inner, "|")], b);
      JoinConcat(inner, b);
    }
  }

  lemma Regroup<T>(a: seq<T>, b: seq<T>, c: seq<T>)
    ensures a + b + c == a + (b + c)
  {
  }

  /** A part that is itself joined can be spliced into the list. */
  lemma JoinNested(a: seq<string>, inner: seq<string>, b: seq<string>)
    requires inner != []
    ensures Join(a + [Join(inner, "|")] + b, "|") == Join(a + inner + b, "|")
  {
    var outer := [Join(inner, "|")];
    JoinNestedFirst(inner, b);
    Regroup(a, outer, b);
    Regroup(a, inner, b);
    if a == [] {
      assert a + (outer + b) == outer + b;
      assert a + (inner + b) == inner + b;
    } else {
      JoinConcat(a, outer + b);
      JoinConcat(a, inner + b);
    }
  }

  lemma CutAtBar(s: string) returns (x: string, y: string)
    requires '|' in s
    ensures s == Join([x, y], "|") && |x| < |s| && |y| < |s|
  {
    var i :| 0 <= i < |s| && s[i] == '|';
    x, y := s[..i], s[i + 1..];
    assert [x, y][1..] == [y];
    assert s == x + "|" + y;
  }

  lemma {:induction false} MoveBar(a: seq<string>, x: string, y: string, g: string, b: seq<string>)
    ensures Join(a + [Join([x, y], "|"), g] + b, "|") == Join(a + [x, Join([y, g], "|")] + b, "|")
  {
    JoinNested(a, [x, y], [g] + b);
    JoinNested(a + [x], [y, g], b);
    assert a + [Join([x, y], "|"), g] + b == a + [Join([x, y], "|")] + ([g] + b);
    assert a + [x, Join([y, g], "|")] + b == (a + [x]) + [Join([y, g], "|")] + b;
    assert a + [x, y] + ([g] + b) == (a + [x]) + [y, g] + b;
  }

  /** Moving the text after a separator into the next field keeps the payload. */
  lemma MoveBarBetween(e: CryptoEnvelope, f: CryptoEnvelope, k: nat, x: string, y: string)
    requires k + 1 < 7
    requires SignedFields(e)[k] == Join([x, y], "|")
    requires SignedFields(f)[k] == x && SignedFields(f)[k + 1] == Join([y, SignedFields(e)[k + 1]], "|")
    requires forall i :: 0 <= i < 7 && i != k && i != k + 1 ==> SignedFields(f)[i] == SignedFields(e)[i]
    ensures SigningPayload(f) == SigningPayload(e)
  {
    var s, t := SignedFields(e), SignedFields(f);
    MoveBar(s[..k], x, y, s[k + 1], s[k + 2..]);
    assert s == s[..k] + [s[k], s[k + 1]] + s[k + 2..];
    assert t == s[..k] + [t[k], t[k + 1]] + s[k + 2..];
  }

  /** A separator in one of the last five fields can be moved into the neighbouring field. */
  lemma BarInLastFields(e: CryptoEnvelope) returns (f: CryptoEnvelope)
    requires '|' in e.nonce || '|' in e.mtype || '|' in e.iv || '|' in e.ciphertext || '|' in e.tag
    ensures SigningPayload(f) == SigningPayload(e) && !SameSigned(f, e)
  {
    if '|' in e.nonce {
      var x, y := CutAtBar(e.nonce);
      f := e.(nonce := x, mtype := Join([y, e.mtype], "|"));
      MoveBarBetween(e, f, 2, x, y);
    } else if '|' in e.mtype {
      var x, y := CutAtBar(e.mtype);
      f := e.(mtype := x, iv := Join([y, e.iv], "|"));
      MoveBarBetween(e, f, 3, x, y);
    } else if '|' in e.iv {
      var x, y := CutAtBar(e.iv);
      f := e.(iv := x, ciphertext := Join([y, e.ciphertext], "|"));
      MoveBarBetween(e, f, 4, x, y);
    } else if '|' in e.ciphertext {
      var x, y := CutAtBar(e.ciphertext);
      f := e.(ciphertext := x, tag := Join([y, e.tag], "|"));
      MoveBarBetween(e, f, 5, x, y);
    } else {
      var x, y := CutAtBar(e.tag);
      f := e.(ciphertext := Join([e.ciphertext, x], "|"), tag := y);
      MoveBarBetween(f, e, 5, e.ciphertext, x);
    }
  }

  lemma PayloadSegments(e: CryptoEnvelope, head: seq<string>, moved: seq<string>)
    requires head != [] && e.msgId == Join(head, "|")
    requires moved != [] && e.nonce == Join(moved, "|")
    ensures SigningPayload(e)
         == Join(head + [IntToString(e.timestamp)] + moved + [e.mtype, e.iv, e.ciphertext, e.tag], "|")
  {
    var ts := [IntToString(e.timestamp)];
    var last := [e.mtype, e.iv, e.ciphertext, e.tag];
    JoinNestedFirst(head, ts + [e.nonce] + last);
    assert SignedFields(e) == [e.msgId] + (ts + [e.nonce] + last);
    JoinNested(head + ts, moved, last);
    assert head + (ts + [e.nonce] + last) == (head + ts) + [e.nonce] + last;
  }

  lemma HeadIsShorter(s: string, i: int)
    requires 1 <= i < |Split(s)|
    ensures |Join(Split(s)[..i], "|")| < |s|
  {
    var head, rest := Split(s)[..i], Split(s)[i..];
    JoinSplit(s);
    JoinConcat(head, rest);
    assert Split(s) == head + rest;
  }

  lemma PickOut<T>(parts: seq<T>, i: nat, ts: seq<T>, rest: seq<T>)
    requires i < |parts|
    ensures parts + ts + rest == parts[..i] + [parts[i]] + (parts[i + 1..] + ts + rest)
  {
    assert parts == parts[..i] + [parts[i]] + parts[i + 1..];
  }

  /** A later segment of msg_id that reads as a number can take the place of the timestamp. */
  lemma NumberInMsgId(e: CryptoEnvelope, i: int) returns (f: CryptoEnvelope)
    requires 1 <= i < |Split(e.msgId)| && DecimalText(Split(e.msgId)[i])
    ensures SigningPayload(f) == SigningPayload(e) && !SameSigned(f, e)
  {
    var parts := Split(e.msgId);
    var n :| IntToString(n) == parts[i];
    var head, ts := parts[..i], [IntToString(e.timestamp)];
    var moved := parts[i + 1..] + ts + [e.nonce];
    f := e.(msgId := Join(head, "|"), timestamp := n, nonce := Join(moved, "|"));

    JoinSplit(e.msgId);
    HeadIsShorter(e.msgId, i);
    PayloadSegments(e, parts, [e.nonce]);
    PayloadSegments(f, head, moved);
    PickOut(parts, i, ts, [e.nonce]);
  }

  /** The texts that are the signing payload of some envelope: those with a number among their segments,
      one segment or more before it and five or more after. */
  ghost predicate ReadsAsEnvelope(text: string) {
    exists i :: 1 <= i && i + 5 < |Split(text)| && DecimalText(Split(text)[i])
  }

  lemma TimestampSegment(e: CryptoEnvelope)
    ensures ReadsAsEnvelope(SigningPayload(e))
  {
    SplitRest(e);
    assert Split(SigningPayload(e))[|Split(e.msgId)|] == IntToString(e.timestamp);
  }

  lemma EnvelopeOf(text: string, i: int) returns (e: CryptoEnvelope)
    requires 1 <= i && i + 5 < |Split(text)| && DecimalText(Split(text)[i])
    ensures SigningPayload(e) == text
  {
    var parts := Split(text);
    var last, n := |parts| - 4, FromDecimal(parts[i]);
    e := CryptoEnvelope(Join(parts[..i], "|"), n, Join(parts[i + 1..last], "|"),
                        parts[last], parts[last + 1], parts[last + 2], parts[last + 3], "");
    PayloadSegments(e, parts[..i], parts[i + 1..last]);
    SevenPieces(parts, i);
    JoinSplit(text);
  }

  lemma SevenPieces<T>(parts: seq<T>, i: nat)
    requires i + 5 < |parts|
    ensures var last := |parts| - 4;
            parts == parts[..i] + [parts[i]] + parts[i + 1..last]
                     + [parts[last], parts[last + 1], parts[last + 2], parts[last + 3]]
  {
  }

  ghost function FromDecimal(s: string): (n: int)
    requires DecimalText(s)
    ensures IntToString(n) == s
  {
    var n :| IntToString(n) == s;
    n
  }

  lemma ReadsAsEnvelopeExactly(text: string)
    ensures (exists e :: SigningPayload(e) == text) <==> ReadsAsEnvelope(text)
  {
    if ReadsAsEnvelope(text) {
      var i :| 1 <= i && i + 5 < |Split(text)| && DecimalText(Split(text)[i]);
      var e := EnvelopeOf(text, i);
    } else if e :| SigningPayload(e) == text {
      TimestampSegment(e);
    }
  }

  /** When the second of two equal segment lists has its number where the first has one at the earliest,
      the lists divide at the same place. */
  lemma SameDivision(p: seq<string>, a: seq<string>, q: seq<string>, b: seq<string>)
    requires p + a == q + b && a != [] && b != [] && |a| <= |b|
    requires DecimalText(b[0]) && |q| >= 1 && forall i :: 1 <= i < |p| ==> !DecimalText(p[i])
    ensures p == q && a == b
  {
    assert forall i :: 0 <= i < |p| ==> (q + b)[i] == p[i];
    assert (q + b)[|q|] == b[0];
    assert |q| == |p|;
    assert p == (p + a)[..|p|] && q == (q + b)[..|q|];
    assert a == (p + a)[|p|..] && b == (q + b)[|q|..];
  }

  /** The fields after msg_id, split: the timestamp is one segment. */
  lemma SplitRest(e: CryptoEnvelope)
    ensures Split(SigningPayload(e)) == Split(e.msgId) + ([IntToString(e.timestamp)] + SplitAll(SignedFields(e)[2..]))
    ensures |SplitAll(SignedFields(e)[2..])| >= 5
    ensures '|' !in e.nonce && '|' !in e.mtype && '|' !in e.iv && '|' !in e.ciphertext && '|' !in e.tag ==>
              SplitAll(SignedFields(e)[2..]) == SignedFields(e)[2..]
    ensures |SplitAll(SignedFields(e)[2..])| == 5 ==> SplitAll(SignedFields(e)[2..]) == SignedFields(e)[2..]
  {
    var fields := SignedFields(e);
    IntToStringHasNoBar(e.timestamp);
    SplitJoin(fields);
    SplitSegments(IntToString(e.timestamp));
    SplitAllCounts(fields[2..]);
    assert fields[1..][1..] == fields[2..];
    assert SplitAll(fields[1..]) == [IntToString(e.timestamp)] + SplitAll(fields[2..]);
  }

  lemma SafePayloadUnambiguous(e: CryptoEnvelope, f: CryptoEnvelope)
    requires SafelySeparated(e)
    requires SigningPayload(f) == SigningPayload(e)
    ensures SameSigned(f, e)
  {
    SplitRest(e);
    SplitRest(f);
    var u, v := SignedFields(e)[2..], SignedFields(f)[2..];
    var a, b := [IntToString(e.timestamp)] + SplitAll(u), [IntToString(f.timestamp)] + SplitAll(v);
    assert DecimalText(b[0]);
    SameDivision(Split(e.msgId), a, Split(f.msgId), b);
    JoinSplit(e.msgId);
    JoinSplit(f.msgId);
    assert a[0] == b[0] && a[1..] == b[1..];
    IntToStringInjective(e.timestamp, f.timestamp);
    assert u == v;
    assert u[0] == v[0] && u[1] == v[1] && u[2] == v[2] && u[3] == v[3] && u[4] == v[4];
  }

  /** The signing payload identifies an envelope exactly when it is safely separated. */
  lemma UnambiguousExactly(e: CryptoEnvelope)
    ensures Unambiguous(e) <==> SafelySeparated(e)
  {
    if SafelySeparated(e) {
      forall f: CryptoEnvelope | SigningPayload(f) == SigningPayload(e)
        ensures SameSigned(f, e)
      {
        SafePayloadUnambiguous(e, f);
      }
    } else if '|' in e.nonce || '|' in e.mtype || '|' in e.iv || '|' in e.ciphertext || '|' in e.tag {
      var f := BarInLastFields(e);
    } else {
      var i :| 1 <= i < |Split(e.msgId)| && DecimalText(Split(e.msgId)[i]);
      var f := NumberInMsgId(e, i);
    }
  }
}
