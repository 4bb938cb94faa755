/**
 * The probe half of `checkProxyIP`: reading the reply to the fixed
 * `GET /cdn-cgi/trace` request until the stop rule fires or the chunks run
 * out, extracting the status code and classifying the reply.
 *
 * The socket is not modelled: what the connection delivers before the
 * five-second timer fires is an input, either the chunks received or the
 * message of the fault that interrupted the exchange.
 */
module Probe {
  import opened Wrappers
  import opened Strings
  import opened JsNumbers
  import opened Endpoint

  type byte = b: int | 0 <= b < 256

  /** A reply must be longer than this many bytes to count as a success. */
  const MinResponseBytes: nat := 50

  /** The end-of-headers marker. */
  const HeaderEnd: string := "\r\n\r\n"

  // ---------------------------------------------------------------------------
  // Decoding

  /** One byte as `TextDecoder` sees it: ASCII as itself, anything else not ASCII. */
  function DecodeByte(b: byte): (c: char)
    ensures b < 128 ==> c as int == b
    ensures b >= 128 ==> c == '\U{FFFD}'
  {
    if b < 128 then b as char else '\U{FFFD}'
  }

  predicate HasBom(data: seq<byte>) {
    |data| >= 3 && data[0] == 0xEF && data[1] == 0xBB && data[2] == 0xBF
  }

  /**
   * `new TextDecoder().decode(data)`: a leading UTF-8 byte-order mark is
   * dropped, ASCII bytes decode to themselves and every other byte to a
   * non-ASCII character.
   */
  function Decode(data: seq<byte>): (text: string)
    ensures |text| == if HasBom(data) then |data| - 3 else |data|
    ensures forall i :: 0 <= i < |text| ==> text[i] == DecodeByte(data[i + if HasBom(data) then 3 else 0])
  {
    var body := if HasBom(data) then data[3..] else data;
    seq(|body|, i requires 0 <= i < |body| => DecodeByte(body[i]))
  }

  predicate IsAscii(text: string) {
    forall i :: 0 <= i < |text| ==> text[i] as int < 128
  }

  /** The bytes a peer sends for an ASCII text. */
  function EncodeAscii(text: string): (data: seq<byte>)
    requires IsAscii(text)
    ensures |data| == |text|
  {
    seq(|text|, i requires 0 <= i < |text| => text[i] as int)
  }

  /** Decoding undoes the encoding of any ASCII text. */
  lemma {:induction false} DecodeEncodeAscii(text: string)
    requires IsAscii(text)
    ensures Decode(EncodeAscii(text)) == text
  {
    var data := EncodeAscii(text);
    assert !HasBom(data) by {
      if |data| >= 3 {
        assert data[0] == text[0] as int < 128;
      }
    }
    var d := Decode(data);
    forall i | 0 <= i < |text|
      ensures d[i] == text[i]
    {
      assert d[i] == DecodeByte(data[i]);
    }
  }

  // ---------------------------------------------------------------------------
  // The read loop

  /**
   * The reply so far is complete enough to stop reading: it holds the
   * end-of-headers marker and a close or content-length signal.
   */
  predicate ShouldStopReading(text: string) {
    && Includes(text, HeaderEnd)
    && (|| Includes(text, "Connection: close")
        || Includes(text, "content-length")
        || Includes(Lower(text), "connection: close"))
  }

  /** An occurrence survives lower-casing both the text and the pattern. */
  lemma {:induction false} LowerOccursAt(s: string, p: string, i: nat)
    requires OccursAt(s, p, i)
    ensures OccursAt(Lower(s), Lower(p), i)
  {
    forall k | 0 <= k < |p|
      ensures Lower(s)[i + k] == Lower(p)[k]
    {
      assert s[i + k] == p[k];
    }
  }

  /**
   * The case-sensitive `Connection: close` test is subsumed by the
   * case-insensitive one: the stop rule is the marker plus either a
   * `content-length` or a `connection: close` in any letter case.
   */
  lemma {:induction false} ShouldStopReadingSimplified(text: string)
    ensures ShouldStopReading(text) <==>
      && Includes(text, HeaderEnd)
      && (Includes(text, "content-length") || Includes(Lower(text), "connection: close"))
  {
    if Includes(text, "Connection: close") {
      var i := IndexOf(text, "Connection: close").value;
      LowerOccursAt(text, "Connection: close", i);
      LowerConnectionClose();
      assert OccursAt(Lower(text), "connection: close", i);
    }
  }

  lemma {:induction false} LowerConnectionClose()
    ensures Lower("Connection: close") == "connection: close"
  {
    var s := "Connection: close";
    var r := Lower(s);
    assert r[0] == 'c';
    assert forall i | 1 <= i < |s| :: r[i] == s[i];
  }

  function Concat(chunks: seq<seq<byte>>): (data: seq<byte>)
  {
    if |chunks| == 0 then [] else Concat(chunks[..|chunks| - 1]) + chunks[|chunks| - 1]
  }

  /** Reading one more chunk appends it to the reply. */
  lemma {:induction false} ConcatPrefixStep(chunks: seq<seq<byte>>, k: nat)
    requires k < |chunks|
    ensures Concat(chunks[..k + 1]) == Concat(chunks[..k]) + chunks[k]
  {
    assert chunks[..k + 1][..k] == chunks[..k];
  }

  /** The reply made of the first `j` chunks satisfies the stop rule. */
  predicate StopsAfter(chunks: seq<seq<byte>>, j: nat)
    requires j <= |chunks|
  {
    ShouldStopReading(Decode(Concat(chunks[..j])))
  }

  /** Whether the stop rule holds after each prefix of the chunks, from the empty one on. */
  function StopFlags(chunks: seq<seq<byte>>): (flags: seq<bool>)
    ensures |flags| == |chunks| + 1
    ensures forall j :: 0 <= j <= |chunks| ==> flags[j] == StopsAfter(chunks, j)
  {
    seq(|chunks| + 1, j requires 0 <= j <= |chunks| => StopsAfter(chunks, j))
  }

  /** The first `n` in `k..limit` whose flag is set, or `limit` when there is none. */
  function FirstFlag(flags: seq<bool>, k: nat, limit: nat): (n: nat)
    requires 1 <= k && limit < |flags|
    decreases limit - k
    ensures n <= limit
    ensures n >= k || n == limit
    ensures forall j :: k <= j < n ==> !flags[j]
    ensures n < limit ==> flags[n]
  {
    if k >= limit then limit
    else if flags[k] then k
    else FirstFlag(flags, k + 1, limit)
  }

  /**
   * How many chunks the read loop consumes: it stops right after the first
   * chunk that makes the reply satisfy the stop rule, and otherwise reads
   * until the chunks run out (the peer closed, or the timer fired).
   */
  function ChunksRead(chunks: seq<seq<byte>>): (n: nat)
    ensures n <= |chunks|
    ensures forall j :: 0 < j < n ==> !StopsAfter(chunks, j)
    ensures n < |chunks| ==> n > 0 && StopsAfter(chunks, n)
  {
    FirstFlag(StopFlags(chunks), 1, |chunks|)
  }

  /** The bytes the read loop accumulates. */
  function Received(chunks: seq<seq<byte>>): seq<byte> {
    Concat(chunks[..ChunksRead(chunks)])
  }

  /**
   * The `while (true)` read loop: appends each chunk to the reply and tests
   * the stop rule after every chunk. `used` is the number of chunks consumed.
   */
  method ReadResponse(chunks: seq<seq<byte>>) returns (data: seq<byte>, used: nat)
    ensures used == ChunksRead(chunks)
    ensures data == Concat(chunks[..used])
  {
    data := [];
    used := 0;
    while used < |chunks|
      invariant used <= ChunksRead(chunks)
      invariant data == Concat(chunks[..used])
      invariant used > 0 ==> !StopsAfter(chunks, used)
    {
      NotYetStopped(chunks, used);
      ConcatPrefixStep(chunks, used);
      data := data + chunks[used];
      used := used + 1;
      if ShouldStopReading(Decode(data)) {
        FirstStop(chunks, used);
        return;
      }
    }
  }

  /** Before the first stop, at least one more chunk is read. */
  lemma {:induction false} NotYetStopped(chunks: seq<seq<byte>>, k: nat)
    requires k <= ChunksRead(chunks) && k < |chunks|
    requires k > 0 ==> !StopsAfter(chunks, k)
    ensures k < ChunksRead(chunks)
  {
  }

  /** The first chunk count that satisfies the stop rule is the one read. */
  lemma {:induction false} FirstStop(chunks: seq<seq<byte>>, k: nat)
    requires 0 < k <= ChunksRead(chunks)
    requires StopsAfter(chunks, k)
    ensures k == ChunksRead(chunks)
  {
  }

  // ---------------------------------------------------------------------------
  // Classification

  function LeadingWhitespace(s: string): (r: string)
    ensures r <= s
    ensures forall i :: 0 <= i < |r| ==> IsJsWhitespace(r[i])
    ensures |r| < |s| ==> !IsJsWhitespace(s[|r|])
  {
    if |s| > 0 && IsJsWhitespace(s[0]) then [s[0]] + LeadingWhitespace(s[1..]) else ""
  }

  /** The text opens with `HTTP/d.d` in any letter case. */
  predicate HasVersionPrefix(text: string) {
    && |text| >= 8
    && Lower(text[..5]) == "http/"
    && IsDigit(text[5]) && text[6] == '.' && IsDigit(text[7])
  }

  /**
   * `text.match(/^HTTP\/\d\.\d\s+(\d+)/i)` followed by `parseInt` of the
   * captured digits: the status code, or `None` when the pattern fails.
   */
  function StatusCode(text: string): (r: Option<nat>)
  {
    if !HasVersionPrefix(text) then None
    else
      var ws := LeadingWhitespace(text[8..]);
      var digits := LeadingDigits(text[8 + |ws|..], 10);
      if |ws| >= 1 && |digits| >= 1 then Some(DigitsValue(digits)) else None
  }

  /**
   * A status line written by a server is read back: `HTTP/1.1 <code>`
   * followed by anything that does not continue the digits yields `code`.
   */
  lemma {:induction false} StatusCodeOfStatusLine(code: nat, rest: string)
    requires |rest| == 0 || !IsDigit(rest[0])
    ensures StatusCode("HTTP/1.1 " + NatToString(code) + rest) == Some(code)
  {
    var digits := NatToString(code);
    NatToStringValue(code);
    var tail := digits + rest;
    assert tail[0] == digits[0];
    StatusCodeAfterVersion(tail);
    LeadingDecimalRun(digits, rest);
    AppendAssoc("HTTP/1.1 ", digits, rest);
  }

  /** After `HTTP/1.1 `, the status is the value of the digits that follow. */
  lemma {:induction false} StatusCodeAfterVersion(tail: string)
    requires |tail| > 0 && IsDigit(tail[0])
    ensures StatusCode("HTTP/1.1 " + tail) == Some(DigitsValue(LeadingDigits(tail, 10)))
  {
    var text := "HTTP/1.1 " + tail;
    VersionPrefix(tail);
    assert text[8] == ' ' && text[9..] == tail;
    StatusCodeAt(text, tail);
  }

  /** A version prefix, one space and a digit run give the run's value. */
  lemma {:induction false} StatusCodeAt(text: string, tail: string)
    requires HasVersionPrefix(text) && |text| >= 9 && text[8] == ' ' && text[9..] == tail
    requires |tail| > 0 && IsDigit(tail[0])
    ensures StatusCode(text) == Some(DigitsValue(LeadingDigits(tail, 10)))
  {
    assert text[8..] == [' '] + tail;
    LeadingSpace(tail);
  }

  lemma {:induction false} AppendAssoc(a: string, b: string, c: string)
    ensures a + b + c == a + (b + c)
  {
  }

  lemma {:induction false} VersionPrefix(tail: string)
    ensures HasVersionPrefix("HTTP/1.1 " + tail)
  {
    var text := "HTTP/1.1 " + tail;
    assert text[..5] == "HTTP/";
    assert Lower("HTTP/") == "http/";
  }

  lemma {:induction false} LeadingSpace(tail: string)
    requires |tail| > 0 && IsDigit(tail[0])
    ensures LeadingWhitespace([' '] + tail) == " "
  {
    assert ([' '] + tail)[1..] == tail;
    assert !IsJsWhitespace(tail[0]);
  }

  /**
   * What `/^HTTP\/\d\.\d\s+(\d+)/i` demands, stated position by position: a
   * version prefix, then at least one white-space character, and a digit at
   * the first position after the white-space run.
   */
  ghost predicate StatusLineMatches(text: string) {
    && HasVersionPrefix(text)
    && exists k :: 9 <= k < |text| && IsDigit(text[k]) && (forall j :: 8 <= j < k ==> IsJsWhitespace(text[j]))
  }

  /** The status is extracted exactly when the pattern matches. */
  lemma {:induction false} StatusCodeMatches(text: string)
    ensures StatusCode(text).Some? <==> StatusLineMatches(text)
  {
    if StatusCode(text).Some? {
      MatchedStatusLine(text);
    }
    if StatusLineMatches(text) {
      StatusLineMatched(text);
    }
  }

  /** An extracted status comes from a line of the pattern's shape. */
  lemma {:induction false} MatchedStatusLine(text: string)
    requires StatusCode(text).Some?
    ensures StatusLineMatches(text)
  {
    var ws := LeadingWhitespace(text[8..]);
    var k := 8 + |ws|;
    var digits := LeadingDigits(text[k..], 10);
    assert digits[0] == text[k];
    forall j | 8 <= j < k
      ensures IsJsWhitespace(text[j])
    {
      assert ws[j - 8] == text[j];
    }
  }

  /** A line of the pattern's shape yields a status. */
  lemma {:induction false} StatusLineMatched(text: string)
    requires StatusLineMatches(text)
    ensures StatusCode(text).Some?
  {
    var k :| 9 <= k < |text| && IsDigit(text[k]) && (forall j :: 8 <= j < k ==> IsJsWhitespace(text[j]));
    var s := text[8..];
    forall j | 0 <= j < k - 8
      ensures IsJsWhitespace(s[j])
    {
      assert s[j] == text[j + 8];
    }
    WhitespaceRunIs(s, k - 8);
    assert text[8 + (k - 8)..] == text[k..];
    DigitRunStarts(text[k..]);
  }

  /** A white-space run of length `n` followed by a non-white-space character is the leading run. */
  lemma {:induction false} WhitespaceRunIs(s: string, n: nat)
    requires n < |s| && !IsJsWhitespace(s[n])
    requires forall j :: 0 <= j < n ==> IsJsWhitespace(s[j])
    ensures LeadingWhitespace(s) == s[..n]
  {
  }

  /** A text starting with a digit has a non-empty leading digit run. */
  lemma {:induction false} DigitRunStarts(s: string)
    requires |s| > 0 && IsDigit(s[0])
    ensures |LeadingDigits(s, 10)| >= 1
  {
  }

  /**
   * Any status line the pattern accepts is read back: a case-insensitive
   * `HTTP/`, a `d.d` version, a non-empty white-space run and a digit run
   * followed by anything that does not continue it give the run's value.
   */
  lemma {:induction false} StatusCodeOfLine(http: string, v1: char, v2: char, ws: string, digits: string, rest: string)
    requires |http| == 5 && Lower(http) == "http/"
    requires IsDigit(v1) && IsDigit(v2)
    requires |ws| >= 1 && forall i :: 0 <= i < |ws| ==> IsJsWhitespace(ws[i])
    requires |digits| >= 1 && AllDigits(digits)
    requires |rest| == 0 || !IsDigit(rest[0])
    ensures StatusCode(http + [v1, '.', v2] + ws + digits + rest) == Some(DigitsValue(digits))
  {
    var tail := ws + digits + rest;
    assert http + [v1, '.', v2] + ws + digits + rest == http + [v1, '.', v2] + tail;
    VersionLine(http, v1, v2, tail);
    StatusCodeOfTail(http + [v1, '.', v2] + tail, ws, digits, rest);
  }

  /** `HTTP/d.d` in any letter case, followed by `tail`, has the version prefix and leaves `tail` after it. */
  lemma {:induction false} VersionLine(http: string, v1: char, v2: char, tail: string)
    requires |http| == 5 && Lower(http) == "http/"
    requires IsDigit(v1) && IsDigit(v2)
    ensures HasVersionPrefix(http + [v1, '.', v2] + tail)
    ensures (http + [v1, '.', v2] + tail)[8..] == tail
  {
    var text := http + [v1, '.', v2] + tail;
    assert text[..5] == http;
  }

  /** After the version prefix, a white-space run and a digit run give the digits' value. */
  lemma {:induction false} StatusCodeOfTail(text: string, ws: string, digits: string, rest: string)
    requires HasVersionPrefix(text) && text[8..] == ws + digits + rest
    requires |ws| >= 1 && forall i :: 0 <= i < |ws| ==> IsJsWhitespace(ws[i])
    requires |digits| >= 1 && AllDigits(digits)
    requires |rest| == 0 || !IsDigit(rest[0])
    ensures StatusCode(text) == Some(DigitsValue(digits))
  {
    WhitespaceThenDigits(ws, digits, rest);
    assert text[8 + |ws|..] == (ws + digits + rest)[|ws|..];
    LeadingDecimalRun(digits, rest);
  }

  /** A white-space run followed by a digit is the leading white-space run. */
  lemma {:induction false} WhitespaceThenDigits(ws: string, digits: string, rest: string)
    requires forall i :: 0 <= i < |ws| ==> IsJsWhitespace(ws[i])
    requires |digits| >= 1 && IsDigit(digits[0])
    ensures LeadingWhitespace(ws + digits + rest) == ws
    ensures (ws + digits + rest)[|ws|..] == digits + rest
  {
    var tail := ws + digits + rest;
    assert tail[|ws|] == digits[0];
    forall j | 0 <= j < |ws|
      ensures IsJsWhitespace(tail[j])
    {
      assert tail[j] == ws[j];
    }
    WhitespaceRunIs(tail, |ws|);
    assert tail[..|ws|] == ws;
  }

  /**
   * `isValidProxyResponse`: a parseable status line, the provider's name in
   * any letter case, one of the two phrases of its plain-HTTP rejection, and
   * more than `MinResponseBytes` bytes.
   */
  predicate IsValidProxyResponse(text: string, data: seq<byte>) {
    && StatusCode(text).Some?
    && Includes(Lower(text), "cloudflare")
    && (Includes(text, "plain HTTP request") || Includes(text, "400 Bad Request"))
    && |data| > MinResponseBytes
  }

  /**
   * A reply of at most `MinResponseBytes` bytes is never a success, however
   * well-formed its status line; a longer one with the provider's rejection
   * page is.
   */
  lemma {:induction false} ShortResponseFails(data: seq<byte>)
    requires |data| <= MinResponseBytes
    ensures !IsValidProxyResponse(Decode(data), data)
  {
  }

  /** The status line and first header of the provider's plain-HTTP rejection page. */
  const RejectionHead: string := "HTTP/1.1 " + "400" + RejectionReason

  const RejectionReason: string := " Bad Request\r\n"

  /**
   * A genuine rejection page is accepted: its status line, followed by any
   * ASCII text that names the provider and brings the reply past
   * `MinResponseBytes` bytes.
   */
  lemma {:induction false} RejectionPageAccepted(rest: string)
    requires IsAscii(rest)
    requires Includes(Lower(rest), "cloudflare")
    requires |RejectionHead| + |rest| > MinResponseBytes
    ensures IsAscii(RejectionHead + rest)
    ensures var data := EncodeAscii(RejectionHead + rest);
      IsValidProxyResponse(Decode(data), data)
  {
    var text := RejectionHead + rest;
    RejectionPageAscii(rest);
    DecodeEncodeAscii(text);
    RejectionPageStatus(rest);
    RejectionPagePhrase(rest);
    RejectionPageProvider(rest);
  }

  lemma {:induction false} RejectionPageAscii(rest: string)
    requires IsAscii(rest)
    ensures IsAscii(RejectionHead + rest)
  {
    var text := RejectionHead + rest;
    forall i | 0 <= i < |text|
      ensures text[i] as int < 128
    {
      if i >= |RejectionHead| {
        assert text[i] == rest[i - |RejectionHead|];
      }
    }
  }

  lemma {:induction false} RejectionPageStatus(rest: string)
    ensures StatusCode(RejectionHead + rest) == Some(400)
  {
    var after := RejectionReason + rest;
    StatusCodeOfStatusLine(400, after);
    FourHundred();
    assert RejectionHead + rest == "HTTP/1.1 " + NatToString(400) + after;
  }

  lemma {:induction false} FourHundred()
    ensures NatToString(400) == "400"
  {
    assert NatToString(4) == "4";
    assert NatToString(40) == "40";
  }

  lemma {:induction false} RejectionPagePhrase(rest: string)
    ensures Includes(RejectionHead + rest, "400 Bad Request")
  {
    var text := RejectionHead + rest;
    assert text[9..9 + 15] == "400 Bad Request";
    assert OccursAt(text, "400 Bad Request", 9);
  }

  lemma {:induction false} RejectionPageProvider(rest: string)
    requires Includes(Lower(rest), "cloudflare")
    ensures Includes(Lower(RejectionHead + rest), "cloudflare")
  {
    var i := IndexOf(Lower(rest), "cloudflare").value;
    LowerConcat(RejectionHead, rest);
    OccursAtShift(Lower(RejectionHead), Lower(rest), "cloudflare", i);
    assert OccursAt(Lower(RejectionHead + rest), "cloudflare", |RejectionHead| + i);
  }

  /** The result of one check, as the worker serialises it. */
  datatype ProbeResult = ProbeResult(
    success: bool,
    proxyIP: string,
    portRemote: JsNum,
    statusCode: Option<nat>,
    responseSize: Option<nat>,
    error: Option<string>)

  /** What the connection delivered before the timer fired, or the fault that ended it. */
  datatype Transport = Delivered(chunks: seq<seq<byte>>) | Fault(message: string)

  /**
   * What `checkProxyIP(input)` reports when the connection to the parsed
   * target delivers `connect(ParseEndpoint(input))`. The parsed host and port
   * are always reported. A fault gives a failure carrying its message and no
   * status or size. Delivered chunks give the classification of the bytes
   * the read loop kept and their count. The reported status is
   * `statusCode || null`, so a parsed status of 0 is reported as absent even
   * though the classification accepted it.
   */
  predicate ReportsProbe(input: string, connect: Endpoint -> Transport, r: ProbeResult) {
    var ep := ParseEndpoint(input);
    && r.proxyIP == ep.host
    && r.portRemote == ep.port
    && r.statusCode != Some(0)
    && (connect(ep).Fault? ==>
         && !r.success
         && r.statusCode.None? && r.responseSize.None?
         && r.error == Some(connect(ep).message))
    && (connect(ep).Delivered? ==>
         var data := Received(connect(ep).chunks);
         && r.success == IsValidProxyResponse(Decode(data), data)
         && r.responseSize == Some(|data|)
         && r.error.None?
         && (r.statusCode.Some? ==> StatusCode(Decode(data)) == r.statusCode)
         && (r.statusCode.None? ==> StatusCode(Decode(data)) in {None, Some(0)}))
  }

  /** `checkProxyIP`: parse the target, read the reply and classify it. */
  method CheckProxyIP(input: string, connect: Endpoint -> Transport) returns (r: ProbeResult)
    ensures ReportsProbe(input, connect, r)
    ensures r.success ==> r.responseSize.Some? && r.responseSize.value > MinResponseBytes
  {
    var ep := ParseEndpoint(input);
    match connect(ep)
    case Fault(message) =>
      r := ProbeResult(false, ep.host, ep.port, None, None, Some(message));
    case Delivered(chunks) =>
      var data, used := ReadResponse(chunks);
      var text := Decode(data);
      var code := StatusCode(text);
      var reported := if code == Some(0) then None else code;
      r := ProbeResult(IsValidProxyResponse(text, data), ep.host, ep.port, reported, Some(|data|), None);
  }
}
