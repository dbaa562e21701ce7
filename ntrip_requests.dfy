/** The request texts the client writes to a caster (network/NtripClient.kt):
    the source-table request, the stream request of NTRIP revision 1 or 2,
    and the HTTP Basic credentials of section 2 of RFC 7617. */
module NtripRequests {
  import opened Basics
  import opened Text
  import Base64
  import Utf8

  datatype NtripProtocol = Rev1 | Rev2

  /** The connection settings (model/NtripConfig.kt). */
  datatype NtripConfig = NtripConfig(
    host: string,
    port: int,
    username: string,
    password: string,
    mountpoint: string,
    useTls: bool,
    protocol: NtripProtocol)

  const CRLF: string := "\r\n"
  const USER_AGENT: string := "User-Agent: NTRIP NTRIP-ANALYSER/0.1"
  const NTRIP_VERSION: string := "Ntrip-Version: Ntrip/2.0"
  const ACCEPT: string := "Accept: */*"
  const KEEP_ALIVE: string := "Connection: keep-alive"
  const CLOSE: string := "Connection: close"

  /** `basicAuth`: the UTF-8 bytes of `username:password` in Base64. The
      caster gets the credentials back by decoding, and the value never
      holds a line break. */
  function BasicAuth(username: string, password: string): (r: string)
    ensures Utf8.Decode(Base64.Decode(r)) == Utf8.CodePoints(username + ":" + password)
    ensures Base64.Padded(r) && NoLineBreak(r)
  {
    var raw := Utf8.Encode(username + ":" + password);
    Base64.RoundTrip(raw);
    Utf8.RoundTrip(username + ":" + password);
    Base64.EncodedAlphabet(raw);
    Base64.Encode(raw)
  }

  /** `trimStart('/')`: the text after its leading slashes. */
  function TrimStartSlash(s: string): (r: string)
    ensures |r| <= |s| && r == s[|s| - |r|..]
    ensures forall k :: 0 <= k < |s| - |r| ==> s[k] == '/'
    ensures |r| > 0 ==> r[0] != '/'
  {
    if |s| > 0 && s[0] == '/' then TrimStartSlash(s[1..]) else s
  }

  /** The mountpoint as it goes into the request line: trimmed, then
      stripped of its leading slashes. */
  function NormalizeMountpoint(mountpoint: string): string
  {
    TrimStartSlash(Trim(mountpoint))
  }

  /** The normalized mountpoint is the trimmed one less a run of slashes,
      and does not start with a slash. */
  lemma MountpointShape(mountpoint: string)
    ensures var t, m := Trim(mountpoint), NormalizeMountpoint(mountpoint);
      && |m| <= |t| && m == t[|t| - |m|..]
      && (forall k :: 0 <= k < |t| - |m| ==> t[k] == '/')
      && (|m| > 0 ==> m[0] != '/')
  {
  }

  /** A mountpoint without line breaks stays without them. */
  lemma MountpointNoLineBreak(mountpoint: string)
    requires NoLineBreak(mountpoint)
    ensures NoLineBreak(NormalizeMountpoint(mountpoint))
  {
    TrimNoLineBreak(mountpoint);
    var t, m := Trim(mountpoint), NormalizeMountpoint(mountpoint);
    forall k | 0 <= k < |m|
      ensures !IsLineBreak(m[k])
    {
      assert m[k] == t[|t| - |m| + k];
    }
  }

  /** Leading slashes go. */
  lemma MountpointLeadingSlashes()
    ensures NormalizeMountpoint("//A") == "A"
  {
    TrimKeeps("//A");
    assert "//A"[1..] == "/A";
    assert "/A"[1..] == "A";
  }

  /** Whitespace after the slashes survives: the trim comes first. */
  lemma MountpointInnerSpace()
    ensures NormalizeMountpoint("/ A") == " A"
  {
    TrimKeeps("/ A");
    assert "/ A"[1..] == " A";
  }

  function HttpVersion(protocol: NtripProtocol): string
  {
    if protocol == Rev2 then "HTTP/1.1" else "HTTP/1.0"
  }

  /** `buildString`: the appended pieces, in order. */
  function Concat(chunks: seq<string>): string
  {
    if |chunks| == 0 then [] else chunks[0] + Concat(chunks[1..])
  }

  /** The pieces `openStream` appends to its request. */
  function StreamChunks(c: NtripConfig): seq<string>
  {
    var auth := BasicAuth(c.username, c.password);
    var mountpoint := NormalizeMountpoint(c.mountpoint);
    var ntripVersionLine := if c.protocol == Rev2 then NTRIP_VERSION + CRLF else "";
    ["GET /" + mountpoint + " " + HttpVersion(c.protocol) + CRLF,
     "Host: " + c.host + CRLF,
     USER_AGENT + CRLF,
     ntripVersionLine,
     "Authorization: Basic " + auth + CRLF,
     ACCEPT + CRLF,
     KEEP_ALIVE + CRLF + CRLF]
  }

  /** The request text of `openStream`. */
  function StreamRequest(c: NtripConfig): string
  {
    Concat(StreamChunks(c))
  }

  /** The pieces `fetchSourceTable` appends to its request. */
  function SourceTableChunks(host: string, username: string, password: string): seq<string>
  {
    var auth := BasicAuth(username, password);
    ["GET / HTTP/1.1" + CRLF,
     "Host: " + host + CRLF,
     USER_AGENT + CRLF,
     NTRIP_VERSION + CRLF,
     "Authorization: Basic " + auth + CRLF,
     CLOSE + CRLF + CRLF]
  }

  /** The request text of `fetchSourceTable`. */
  function SourceTableRequest(host: string, username: string, password: string): string
  {
    Concat(SourceTableChunks(host, username, password))
  }

  function RequestLine(c: NtripConfig): string
  {
    "GET /" + NormalizeMountpoint(c.mountpoint) + " " + HttpVersion(c.protocol)
  }

  /** The header lines of the stream request, in order. */
  function StreamHeaderLines(c: NtripConfig): seq<string>
  {
    [RequestLine(c), "Host: " + c.host, USER_AGENT]
      + (if c.protocol == Rev2 then [NTRIP_VERSION] else [])
      + ["Authorization: Basic " + BasicAuth(c.username, c.password), ACCEPT, KEEP_ALIVE]
  }

  /** The header lines of the source-table request, in order. */
  function SourceTableHeaderLines(host: string, username: string, password: string): seq<string>
  {
    ["GET / HTTP/1.1", "Host: " + host, USER_AGENT, NTRIP_VERSION,
     "Authorization: Basic " + BasicAuth(username, password), CLOSE]
  }

  /** The fixed header texts hold no line break. */
  lemma ConstantsNoLineBreak()
    ensures NoLineBreak(USER_AGENT) && NoLineBreak(NTRIP_VERSION) && NoLineBreak(ACCEPT)
    ensures NoLineBreak(KEEP_ALIVE) && NoLineBreak(CLOSE) && NoLineBreak("GET / HTTP/1.1")
  {
    UserAgentNoLineBreak();
    HeaderNamesNoLineBreak();
    ConnectionNoLineBreak();
  }

  // One lemma per group of literals, so that each proof unfolds only a few
  // literal strings.

  lemma UserAgentNoLineBreak()
    ensures NoLineBreak(USER_AGENT)
  {
  }

  lemma HeaderNamesNoLineBreak()
    ensures NoLineBreak(NTRIP_VERSION) && NoLineBreak(ACCEPT)
  {
  }

  lemma ConnectionNoLineBreak()
    ensures NoLineBreak(KEEP_ALIVE) && NoLineBreak(CLOSE) && NoLineBreak("GET / HTTP/1.1")
  {
  }

  lemma PrefixesNoLineBreak()
    ensures NoLineBreak("Host: ") && NoLineBreak("Authorization: Basic ") && NoLineBreak("GET /")
    ensures NoLineBreak(" ") && NoLineBreak("HTTP/1.1") && NoLineBreak("HTTP/1.0")
  {
  }

  lemma NoLineBreakAppend(a: string, b: string)
    requires NoLineBreak(a) && NoLineBreak(b)
    ensures NoLineBreak(a + b)
  {
    forall k | 0 <= k < |a + b|
      ensures !IsLineBreak((a + b)[k])
    {
      if k >= |a| { assert (a + b)[k] == b[k - |a|]; }
    }
  }

  /** A piece that is a line and its CRLF contributes that line. */
  lemma ChunkLine(l: string, rest: seq<string>)
    requires NoLineBreak(l)
    ensures Lines(Concat([l + CRLF] + rest)) == [l] + Lines(Concat(rest))
  {
    assert ([l + CRLF] + rest)[1..] == rest;
    LineThen(l, CRLF, Concat(rest));
  }

  /** An empty piece contributes nothing. */
  lemma EmptyChunk(rest: seq<string>)
    ensures Concat([""] + rest) == Concat(rest)
  {
    assert ([""] + rest)[1..] == rest;
  }

  /** The last piece: a line, its CRLF and the empty line. */
  lemma LastChunk(l: string)
    requires NoLineBreak(l)
    ensures Lines(Concat([l + CRLF + CRLF])) == [l, "", ""]
  {
    assert Concat([l + CRLF + CRLF]) == l + CRLF + CRLF + Concat([]);
    assert l + CRLF + CRLF + [] == l + CRLF + CRLF;
    LineThen(l, CRLF, CRLF);
    LineThen("", CRLF, "");
    assert "" + CRLF + "" == CRLF;
  }

  /** The request line is made of line-break-free parts when the
      mountpoint is. */
  lemma RequestLineNoLineBreak(c: NtripConfig)
    requires NoLineBreak(c.mountpoint)
    ensures NoLineBreak(RequestLine(c))
  {
    PrefixesNoLineBreak();
    MountpointNoLineBreak(c.mountpoint);
    var m, v := NormalizeMountpoint(c.mountpoint), HttpVersion(c.protocol);
    assert NoLineBreak(v);
    NoLineBreakAppend("GET /", m);
    NoLineBreakAppend("GET /" + m, " ");
    NoLineBreakAppend("GET /" + m + " ", v);
  }

  /** Three pieces that are lines with their CRLF. */
  lemma ThreeLines(chunks: seq<string>, l0: string, l1: string, l2: string, rest: seq<string>)
    requires NoLineBreak(l0) && NoLineBreak(l1) && NoLineBreak(l2)
    requires chunks == [l0 + CRLF, l1 + CRLF, l2 + CRLF] + rest
    ensures Lines(Concat(chunks)) == [l0, l1, l2] + Lines(Concat(rest))
  {
    var c2 := [l2 + CRLF] + rest;
    var c1 := [l1 + CRLF] + c2;
    assert chunks == [l0 + CRLF] + c1;
    var tail := Lines(Concat(rest));
    ChunkLine(l2, rest);
    ChunkLine(l1, c2);
    ChunkLine(l0, c1);
    assert [l0] + ([l1] + ([l2] + tail)) == [l0, l1, l2] + tail;
  }

  /** Two lines, then a last line followed by the empty line. */
  lemma LastThreeLines(chunks: seq<string>, l0: string, l1: string, l2: string)
    requires NoLineBreak(l0) && NoLineBreak(l1) && NoLineBreak(l2)
    requires chunks == [l0 + CRLF, l1 + CRLF, l2 + CRLF + CRLF]
    ensures Lines(Concat(chunks)) == [l0, l1, l2, "", ""]
  {
    var c2 := [l2 + CRLF + CRLF];
    var c1 := [l1 + CRLF] + c2;
    assert chunks == [l0 + CRLF] + c1;
    LastChunk(l2);
    ChunkLine(l1, c2);
    ChunkLine(l0, c1);
    assert [l0] + ([l1] + [l2, "", ""]) == [l0, l1, l2, "", ""];
  }

  /** The version piece: a line for revision 2, nothing for revision 1. */
  lemma VersionLine(chunks: seq<string>, version: string, rev2: bool, rest: seq<string>)
    requires NoLineBreak(version)
    requires chunks == [if rev2 then version + CRLF else ""] + rest
    ensures Lines(Concat(chunks)) == (if rev2 then [version] else []) + Lines(Concat(rest))
  {
    if rev2 {
      ChunkLine(version, rest);
    } else {
      EmptyChunk(rest);
    }
  }

  /** The Authorization line never holds a line break. */
  lemma AuthorizationNoLineBreak(username: string, password: string)
    ensures NoLineBreak("Authorization: Basic " + BasicAuth(username, password))
  {
    PrefixesNoLineBreak();
    var auth := BasicAuth(username, password);
    NoLineBreakAppend("Authorization: Basic ", auth);
  }

  /** Seven pieces as `openStream` appends them, the fourth one optional,
      read back as lines. */
  lemma SevenPieces(l0: string, l1: string, l2: string, v: string, rev2: bool, l4: string, l5: string, l6: string)
    requires NoLineBreak(l0) && NoLineBreak(l1) && NoLineBreak(l2) && NoLineBreak(v)
    requires NoLineBreak(l4) && NoLineBreak(l5) && NoLineBreak(l6)
    ensures Lines(Concat([l0 + CRLF, l1 + CRLF, l2 + CRLF, if rev2 then v + CRLF else "", l4 + CRLF, l5 + CRLF, l6 + CRLF + CRLF]))
      == [l0, l1, l2] + (if rev2 then [v] else []) + [l4, l5, l6] + ["", ""]
  {
    var tail := [l4 + CRLF, l5 + CRLF, l6 + CRLF + CRLF];
    var version := [if rev2 then v + CRLF else ""] + tail;
    var chunks := [l0 + CRLF, l1 + CRLF, l2 + CRLF] + version;
    assert chunks == [l0 + CRLF, l1 + CRLF, l2 + CRLF, if rev2 then v + CRLF else "", l4 + CRLF, l5 + CRLF, l6 + CRLF + CRLF];
    ThreeLines(chunks, l0, l1, l2, version);
    VersionLine(version, v, rev2, tail);
    LastThreeLines(tail, l4, l5, l6);
  }

  /** Read back as lines, the stream request is its header lines in their
      fixed order, then the empty line that ends the header block (and the
      empty rest after it). The Authorization line needs no condition: the
      Base64 text holds no line break. */
  lemma StreamRequestLines(c: NtripConfig)
    requires NoLineBreak(c.host) && NoLineBreak(c.mountpoint)
    ensures Lines(StreamRequest(c)) == StreamHeaderLines(c) + ["", ""]
  {
    ConstantsNoLineBreak();
    RequestLineNoLineBreak(c);
    NoLineBreakAppend("Host: ", c.host);
    AuthorizationNoLineBreak(c.username, c.password);
    SevenPieces(RequestLine(c), "Host: " + c.host, USER_AGENT, NTRIP_VERSION, c.protocol == Rev2,
      "Authorization: Basic " + BasicAuth(c.username, c.password), ACCEPT, KEEP_ALIVE);
  }

  /** Six pieces as `fetchSourceTable` appends them, read back as lines. */
  lemma SixPieces(l0: string, l1: string, l2: string, l3: string, l4: string, l5: string)
    requires NoLineBreak(l0) && NoLineBreak(l1) && NoLineBreak(l2)
    requires NoLineBreak(l3) && NoLineBreak(l4) && NoLineBreak(l5)
    ensures Lines(Concat([l0 + CRLF, l1 + CRLF, l2 + CRLF, l3 + CRLF, l4 + CRLF, l5 + CRLF + CRLF]))
      == [l0, l1, l2, l3, l4, l5] + ["", ""]
  {
    var tail := [l3 + CRLF, l4 + CRLF, l5 + CRLF + CRLF];
    var chunks := [l0 + CRLF, l1 + CRLF, l2 + CRLF] + tail;
    assert chunks == [l0 + CRLF, l1 + CRLF, l2 + CRLF, l3 + CRLF, l4 + CRLF, l5 + CRLF + CRLF];
    ThreeLines(chunks, l0, l1, l2, tail);
    LastThreeLines(tail, l3, l4, l5);
  }

  /** Read back as lines, the source-table request is its header lines in
      their fixed order, then the empty line. */
  lemma SourceTableRequestLines(host: string, username: string, password: string)
    requires NoLineBreak(host)
    ensures Lines(SourceTableRequest(host, username, password))
      == SourceTableHeaderLines(host, username, password) + ["", ""]
  {
    ConstantsNoLineBreak();
    NoLineBreakAppend("Host: ", host);
    AuthorizationNoLineBreak(username, password);
    SixPieces("GET / HTTP/1.1", "Host: " + host, USER_AGENT, NTRIP_VERSION,
      "Authorization: Basic " + BasicAuth(username, password), CLOSE);
  }

  /** The last piece of a build is what the text ends with. */
  lemma {:induction false} ConcatEndsWith(chunks: seq<string>)
    requires |chunks| > 0
    decreases |chunks|
    ensures var s, last := Concat(chunks), chunks[|chunks| - 1];
      |last| <= |s| && s[|s| - |last|..] == last
  {
    if |chunks| > 1 {
      ConcatEndsWith(chunks[1..]);
    } else {
      assert Concat(chunks) == chunks[0] + [];
    }
  }

  /** The stream request line is HTTP/1.1 for revision 2 and HTTP/1.0 for
      revision 1, after `GET /` and the normalized mountpoint. */
  lemma RequestLineVersion(c: NtripConfig)
    requires NoLineBreak(c.host) && NoLineBreak(c.mountpoint)
    ensures var l := Lines(StreamRequest(c))[0];
      && l == "GET /" + NormalizeMountpoint(c.mountpoint) + " " + HttpVersion(c.protocol)
      && |l| >= 8
      && (l[|l| - 8..] == "HTTP/1.1" <==> c.protocol == Rev2)
      && (l[|l| - 8..] == "HTTP/1.0" <==> c.protocol == Rev1)
  {
    StreamRequestLines(c);
    var l := RequestLine(c);
    assert l[|l| - 8..] == HttpVersion(c.protocol);
  }

  /** The `Ntrip-Version: Ntrip/2.0` header is sent exactly for revision 2. */
  lemma NtripVersionIffRev2(c: NtripConfig)
    requires NoLineBreak(c.host) && NoLineBreak(c.mountpoint)
    ensures NTRIP_VERSION in Lines(StreamRequest(c)) <==> c.protocol == Rev2
  {
    StreamRequestLines(c);
    var l0, l1 := RequestLine(c), "Host: " + c.host;
    var l4 := "Authorization: Basic " + BasicAuth(c.username, c.password);
    assert l0[0] == 'G' && l1[0] == 'H' && l4[0] == 'A';
    VersionAmongLines(l0, l1, l4, c.protocol == Rev2);
  }

  /** The version header is among the stream request's lines exactly when
      it was put there: every other line starts differently or is empty. */
  lemma VersionAmongLines(l0: string, l1: string, l4: string, rev2: bool)
    requires |l0| > 0 && |l1| > 0 && |l4| > 0
    requires l0[0] != 'N' && l1[0] != 'N' && l4[0] != 'N'
    ensures (NTRIP_VERSION in [l0, l1, USER_AGENT] + (if rev2 then [NTRIP_VERSION] else [])
             + [l4, ACCEPT, KEEP_ALIVE] + ["", ""]) <==> rev2
  {
    assert NTRIP_VERSION[0] == 'N';
    assert USER_AGENT[0] == 'U' && ACCEPT[0] == 'A' && KEEP_ALIVE[0] == 'C';
    var rest := [l0, l1, USER_AGENT, l4, ACCEPT, KEEP_ALIVE, "", ""];
    assert NTRIP_VERSION !in rest;
    if !rev2 {
      assert [l0, l1, USER_AGENT] + [] + [l4, ACCEPT, KEEP_ALIVE] + ["", ""] == rest;
    }
  }

  /** The stream request ends with the keep-alive header and the empty
      line, whatever the configuration. */
  lemma StreamRequestEnd(c: NtripConfig)
    ensures var s, e := StreamRequest(c), KEEP_ALIVE + CRLF + CRLF;
      |e| <= |s| && s[|s| - |e|..] == e
  {
    ConcatEndsWith(StreamChunks(c));
  }

  /** The source-table request ends with `Connection: close` and the empty
      line. */
  lemma SourceTableRequestEnd(host: string, username: string, password: string)
    ensures var s, e := SourceTableRequest(host, username, password), CLOSE + CRLF + CRLF;
      |e| <= |s| && s[|s| - |e|..] == e
  {
    ConcatEndsWith(SourceTableChunks(host, username, password));
  }

  /** The credentials `a` and `b` travel as `YTpi`. */
  lemma BasicAuthExample()
    ensures BasicAuth("a", "b") == "YTpi"
  {
    var raw: seq<Byte> := [97, 58, 98];
    assert "a" + ":" + "b" == "a:b";
    assert Utf8.Encode("a:b") == raw;
    assert Base64.Encode(raw) == "YTpi";
  }
}
