/** The beacon path: percent-encoding a log entry into path segments, and reading it back. */
module Beacon {
  import opened Text
  import opened Hits

  const PERCENT: byte := 37
  const QUESTION: byte := 63
  const HASH: byte := 35
  const USER_AGENT_LIMIT := 200

  // ---- Percent-encoding of one path segment ----

  /**
   * The bytes that stay as they are: letters, digits, - _ . ~ and, inside a segment, $ & + = : @.
   */
  predicate Unescaped(b: byte) {
    || 65 <= b <= 90 || 97 <= b <= 122 || 48 <= b <= 57
    || b == 45 || b == 95 || b == 46 || b == 126
    || b == 36 || b == 38 || b == 43 || b == 61 || b == 58 || b == 64
  }

  function HexDigit(n: nat): byte
    requires n < 16
  {
    if n < 10 then (48 + n) as byte else (55 + n) as byte
  }

  predicate IsHex(b: byte) {
    48 <= b <= 57 || 65 <= b <= 70 || 97 <= b <= 102
  }

  function HexValue(b: byte): (n: nat)
    requires IsHex(b)
    ensures n < 16
  {
    if b <= 57 then (b - 48) as nat else if b <= 70 then (b - 55) as nat else (b - 87) as nat
  }

  function EscapeByte(b: byte): Str {
    if Unescaped(b) then [b]
    else [PERCENT, HexDigit(b as nat / 16), HexDigit(b as nat % 16)]
  }

  function PathEscape(s: Str): (r: Str)
    ensures SLASH !in r && QUESTION !in r && HASH !in r
  {
    if s == [] then [] else EscapeByte(s[0]) + PathEscape(s[1..])
  }

  /** The documented reader's decoding: a percent sign followed by two hex digits is one byte; anything else stays. */
  function Unquote(s: Str): Str {
    if s == [] then []
    else if s[0] == PERCENT && |s| >= 3 && IsHex(s[1]) && IsHex(s[2]) then
      [(16 * HexValue(s[1]) + HexValue(s[2])) as byte] + Unquote(s[3..])
    else [s[0]] + Unquote(s[1..])
  }

  const HEX: Str := [48, 49, 50, 51, 52, 53, 54, 55, 56, 57, 65, 66, 67, 68, 69, 70]

  /** A string is escaped byte by byte; what does not stay becomes % and two upper-case hex digits. */
  lemma EscapeMeans(b: byte, s: Str)
    ensures PathEscape([]) == []
    ensures PathEscape([b] + s) ==
            (if Stays(b) then [b] else [37, HEX[b as nat / 16], HEX[b as nat % 16]]) + PathEscape(s)
  {
    assert ([b] + s)[1..] == s;
    HexDigits(b as nat / 16);
    HexDigits(b as nat % 16);
    StaysIff(b);
  }

  /** Letters, digits, and ten signs. */
  predicate Stays(b: byte) {
    var c := b as char;
    'A' <= c <= 'Z' || 'a' <= c <= 'z' || '0' <= c <= '9' || c in "-_.~$&+=:@"
  }

  lemma StaysIff(b: byte)
    ensures Stays(b) <==> Unescaped(b)
  {
  }

  lemma HexDigits(n: nat)
    requires n < 16
    ensures HexDigit(n) == HEX[n]
  {
  }

  lemma UnquoteEscapedByte(b: byte, rest: Str)
    ensures Unquote(EscapeByte(b) + rest) == [b] + Unquote(rest)
  {
    var e := EscapeByte(b) + rest;
    if Unescaped(b) {
      assert e[1..] == rest;
    } else {
      assert e[3..] == rest;
    }
  }

  /** Decoding undoes encoding, for every byte string. */
  lemma {:induction false} UnquoteEscape(s: Str)
    ensures Unquote(PathEscape(s)) == s
  {
    if s == [] {
    } else {
      UnquoteEscapedByte(s[0], PathEscape(s[1..]));
      UnquoteEscape(s[1..]);
    }
  }

  // ---- The path ----

  function CutAgent(ua: Str): Str {
    if |ua| > USER_AGENT_LIMIT then ua[..USER_AGENT_LIMIT] else ua
  }

  function Segments(e: LogEntry): seq<Str> {
    [ PathEscape(e.domain), PrintInt(e.status), PathEscape(e.path), PathEscape(e.targetUrl),
      PathEscape(e.clientIp), PathEscape(CutAgent(e.userAgent)), PathEscape(e.referer), PathEscape(e.query) ]
  }

  function JoinSegments(base: Str, segments: seq<Str>): Str {
    if segments == [] then base
    else JoinSegments(base, segments[..|segments| - 1]) + [SLASH] + segments[|segments| - 1]
  }

  /** What is requested: the endpoint's path, then one segment a field. */
  function BeaconPath(base: Str, e: LogEntry): Str {
    JoinSegments(base, Segments(e))
  }

  /** The documented reader: the fields are parts 2 to 9, the query possibly missing. */
  function ReadParts(parts: seq<Str>): Option<LogEntry> {
    if |parts| < 9 then None
    else
      match ParseInt(parts[3])
      case None => None
      case Some(status) =>
        Some(LogEntry(Unquote(parts[2]), Unquote(parts[4]), if |parts| > 9 then Unquote(parts[9]) else [], status,
                      Unquote(parts[5]), Unquote(parts[6]), Unquote(parts[7]), Unquote(parts[8])))
  }

  function ReadPath(path: Str): Option<LogEntry> {
    ReadParts(Split(path, SLASH))
  }

  lemma {:induction false} SplitSegments(base: Str, segments: seq<Str>)
    requires forall i :: 0 <= i < |segments| ==> SLASH !in segments[i]
    ensures Split(JoinSegments(base, segments), SLASH) == Split(base, SLASH) + segments
  {
    if segments == [] {
    } else {
      var front, last := segments[..|segments| - 1], segments[|segments| - 1];
      SplitSegments(base, front);
      SplitJoin(JoinSegments(base, front), last, SLASH);
      SplitNone(last, SLASH);
      assert Split(base, SLASH) + front + [last] == Split(base, SLASH) + segments;
    }
  }

  /** The parts of the emitted path after those of the endpoint are the segments. */
  lemma PartsAreSegments(base: Str, e: LogEntry)
    ensures Split(BeaconPath(base, e), SLASH) == Split(base, SLASH) + Segments(e)
  {
    assert SLASH !in PrintInt(e.status);
    SplitSegments(base, Segments(e));
  }

  lemma ReadSegments(skipped: seq<Str>, e: LogEntry)
    requires |skipped| == 2
    ensures ReadParts(skipped + Segments(e)) == Some(e.(userAgent := CutAgent(e.userAgent)))
  {
    ParsePrintInt(e.status);
    UnquoteEscape(e.domain);
    UnquoteEscape(e.path);
    UnquoteEscape(e.targetUrl);
    UnquoteEscape(e.clientIp);
    UnquoteEscape(CutAgent(e.userAgent));
    UnquoteEscape(e.referer);
    UnquoteEscape(e.query);
  }

  lemma AgentPart(ua: Str)
    ensures CutAgent(ua) == ua[..if |ua| < 200 then |ua| else 200]
  {
  }

  lemma SegmentsMean(e: LogEntry)
    ensures var s := Segments(e);
            && |s| == 8
            && Unquote(s[0]) == e.domain && ParseInt(s[1]) == Some(e.status)
            && Unquote(s[2]) == e.path && Unquote(s[3]) == e.targetUrl && Unquote(s[4]) == e.clientIp
            && Unquote(s[5]) == e.userAgent[..if |e.userAgent| < 200 then |e.userAgent| else 200]
            && Unquote(s[6]) == e.referer && Unquote(s[7]) == e.query
  {
    AgentPart(e.userAgent);
    ParsePrintInt(e.status);
    UnquoteEscape(e.domain);
    UnquoteEscape(e.path);
    UnquoteEscape(e.targetUrl);
    UnquoteEscape(e.clientIp);
    UnquoteEscape(CutAgent(e.userAgent));
    UnquoteEscape(e.referer);
    UnquoteEscape(e.query);
  }

  /** What stands at each place of the emitted path, after the two parts of the endpoint. */
  lemma PartsMean(base: Str, e: LogEntry)
    requires |Split(base, SLASH)| == 2
    ensures var parts := Split(BeaconPath(base, e), SLASH);
            && |parts| == 10
            && Unquote(parts[2]) == e.domain && ParseInt(parts[3]) == Some(e.status)
            && Unquote(parts[4]) == e.path && Unquote(parts[5]) == e.targetUrl && Unquote(parts[6]) == e.clientIp
            && Unquote(parts[7]) == e.userAgent[..if |e.userAgent| < 200 then |e.userAgent| else 200]
            && Unquote(parts[8]) == e.referer && Unquote(parts[9]) == e.query
  {
    SegmentsMean(e);
    PartsAreSegments(base, e);
    var s, parts := Segments(e), Split(BeaconPath(base, e), SLASH);
    assert forall i :: 0 <= i < 8 ==> parts[i + 2] == s[i];
    assert parts[2] == s[0] && parts[3] == s[1] && parts[4] == s[2] && parts[5] == s[3];
    assert parts[6] == s[4] && parts[7] == s[5] && parts[8] == s[6] && parts[9] == s[7];
  }

  /** Reading the path emitted for an entry gives the entry back, with the user agent cut to its first 200 bytes. */
  lemma BeaconRoundTrip(base: Str, e: LogEntry)
    requires |Split(base, SLASH)| == 2
    ensures ReadPath(BeaconPath(base, e)) ==
            Some(e.(userAgent := e.userAgent[..if |e.userAgent| < 200 then |e.userAgent| else 200]))
  {
    PartsAreSegments(base, e);
    ReadSegments(Split(base, SLASH), e);
    AgentPart(e.userAgent);
  }

  const BEACON: Str := [SLASH, 98, 101, 97, 99, 111, 110]

  /** "/beacon", the path of the documented endpoint, has the two leading parts the reader skips. */
  lemma DocumentedBase()
    ensures Split(BEACON, SLASH) == [[], [98, 101, 97, 99, 111, 110]]
  {
    assert BEACON[1..] == [98, 101, 97, 99, 111, 110];
    SplitNone(BEACON[1..], SLASH);
  }

  /**
   * For any endpoint, two entries give the same path exactly when they agree in everything but the
   * user agent, and in this up to byte 200.
   */
  lemma SamePathIff(base: Str, e: LogEntry, f: LogEntry)
    ensures BeaconPath(base, e) == BeaconPath(base, f) <==>
            && e.(userAgent := []) == f.(userAgent := [])
            && (e.userAgent == f.userAgent ||
                (|e.userAgent| >= 200 && |f.userAgent| >= 200 && e.userAgent[..200] == f.userAgent[..200]))
  {
    var skipped := Split(base, SLASH);
    PartsAreSegments(base, e);
    PartsAreSegments(base, f);
    assert (skipped + Segments(e))[|skipped|..] == Segments(e);
    assert (skipped + Segments(f))[|skipped|..] == Segments(f);
    ReadSegments([[], []], e);
    ReadSegments([[], []], f);
    SameCutIff(e.userAgent, f.userAgent);
  }

  lemma SameCutIff(a: Str, b: Str)
    ensures CutAgent(a) == CutAgent(b) <==> a == b || (|a| >= 200 && |b| >= 200 && a[..200] == b[..200])
  {
    AgentPart(a);
    AgentPart(b);
    assert |a| <= 200 ==> CutAgent(a) == a;
    assert |b| <= 200 ==> CutAgent(b) == b;
  }
}
