/** The caster's reply to an NTRIP request (network/NtripHttpResponseParser.kt):
    the header section is read byte by byte up to the first CRLF CRLF (the
    end of the header section, section 2.1 of RFC 9112), then the status
    line decides whether the stream is accepted. */
module NtripHttp {
  import opened Basics
  import opened Text

  /** The input stream of the socket: its bytes and a read position.
      `Read` gives the next byte, or -1 once the bytes are exhausted. */
  class ByteStream {
    const data: seq<Byte>
    var pos: nat

    ghost predicate Valid()
      reads this
    {
      pos <= |data|
    }

    function Remaining(): seq<Byte>
      reads this
      requires Valid()
    {
      data[pos..]
    }

    constructor(data: seq<Byte>)
      ensures this.data == data && pos == 0 && Valid()
    {
      this.data := data;
      pos := 0;
    }

    method Read() returns (c: int)
      requires Valid()
      modifies this
      ensures Valid()
      ensures old(pos) < |data| ==> c == data[old(pos)] && pos == old(pos) + 1
      ensures old(pos) == |data| ==> c == -1 && pos == old(pos)
    {
      if pos < |data| {
        c := data[pos];
        pos := pos + 1;
      } else {
        c := -1;
      }
    }
  }

  /** CR LF CR LF. */
  const TERMINATOR: seq<Byte> := [13, 10, 13, 10]

  /** The exceptions of the parser; `Message` gives their text. */
  datatype HttpError = NoResponseBody | MissingStatusLine | Rejected(statusLine: string)

  function Message(e: HttpError): string
  {
    match e
    case NoResponseBody => "No HTTP response body found from caster"
    case MissingStatusLine => "Missing HTTP status line from caster"
    case Rejected(line) => "Caster rejected request: " + line
  }

  predicate EndsWithTerminator(s: seq<Byte>)
  {
    |s| >= 4 && s[|s| - 4..] == TERMINATOR
  }

  /** No prefix of `s` shorter than `n` ends with the terminator. */
  predicate NoTerminatorBefore(s: seq<Byte>, n: nat)
  {
    forall j :: 0 <= j < n && j <= |s| ==> !EndsWithTerminator(s[..j])
  }

  /** The length of the shortest prefix of `s[..]` from `j` on that ends
      with the terminator. */
  function FirstTerminatorFrom(s: seq<Byte>, j: nat): (r: Option<nat>)
    requires NoTerminatorBefore(s, j)
    decreases |s| + 1 - j
    ensures r.Some? ==> j <= r.value <= |s| && EndsWithTerminator(s[..r.value]) && NoTerminatorBefore(s, r.value)
    ensures r.None? ==> NoTerminatorBefore(s, |s| + 1)
  {
    if j > |s| then None
    else if EndsWithTerminator(s[..j]) then Some(j)
    else FirstTerminatorFrom(s, j + 1)
  }

  /** Where the header section ends: just after the first CRLF CRLF. */
  function FirstTerminator(s: seq<Byte>): (r: Option<nat>)
    ensures r.Some? ==> r.value <= |s| && EndsWithTerminator(s[..r.value]) && NoTerminatorBefore(s, r.value)
    ensures r.None? ==> NoTerminatorBefore(s, |s| + 1)
  {
    FirstTerminatorFrom(s, 0)
  }

  /** The end of the header section is determined by the two facts that
      characterise it. */
  lemma FirstTerminatorUnique(s: seq<Byte>, n: nat)
    requires n <= |s| && EndsWithTerminator(s[..n]) && NoTerminatorBefore(s, n)
    ensures FirstTerminator(s) == Some(n)
  {
  }

  /** `s` ends with the first `k` bytes of the terminator. */
  predicate IsOverlap(s: seq<Byte>, k: nat)
  {
    k <= 4 && k <= |s| && forall i :: 0 <= i < k ==> s[|s| - k + i] == TERMINATOR[i]
  }

  /** The longest end of `s` that begins the terminator: the reference
      meaning of the `matched` counter. */
  function Overlap(s: seq<Byte>): (r: nat)
    ensures r <= 4 && IsOverlap(s, r)
    ensures forall k :: r < k <= 4 ==> !IsOverlap(s, k)
  {
    if IsOverlap(s, 4) then 4
    else if IsOverlap(s, 3) then 3
    else if IsOverlap(s, 2) then 2
    else if IsOverlap(s, 1) then 1
    else 0
  }

  lemma OverlapSnoc(s: seq<Byte>, c: Byte, k: nat)
    requires 1 <= k <= 4
    ensures IsOverlap(s + [c], k) <==> IsOverlap(s, k - 1) && c == TERMINATOR[k - 1]
  {
    var t := s + [c];
    if k <= |t| {
      assert t[|t| - 1] == c;
    }
  }

  /** A matched end of length k finishes with the k-th terminator byte. */
  lemma LastByte(s: seq<Byte>, k: nat)
    requires 1 <= k <= 4
    ensures IsOverlap(s, k) ==> s[|s| - 1] == TERMINATOR[k - 1]
  {
    if IsOverlap(s, k) {
      assert s[|s| - k + (k - 1)] == TERMINATOR[k - 1];
    }
  }

  /** The longest end is determined by the two facts that characterise it. */
  lemma OverlapIs(t: seq<Byte>, r: nat)
    requires r <= 4 && IsOverlap(t, r)
    requires forall k :: r < k <= 4 ==> !IsOverlap(t, k)
    ensures Overlap(t) == r
  {
  }

  /** The counter update of the scanning loop is correct: from the longest
      matched end of the bytes so far, a matching byte extends it, and a
      mismatch falls back to 1 on CR and to 0 otherwise. */
  lemma UpdateKeepsOverlap(s: seq<Byte>, c: Byte)
    requires Overlap(s) < 4
    ensures var m := Overlap(s);
      Overlap(s + [c]) == if c == TERMINATOR[m] then m + 1 else if c == TERMINATOR[0] then 1 else 0
  {
    var m := Overlap(s);
    var t := s + [c];
    LastByte(s, 1);
    LastByte(s, 2);
    LastByte(s, 3);
    forall k | m + 1 < k <= 4
      ensures !IsOverlap(t, k)
    {
      OverlapSnoc(s, c, k);
    }
    OverlapSnoc(s, c, m + 1);
    if c == TERMINATOR[m] {
      OverlapIs(t, m + 1);
    } else if c == TERMINATOR[0] {
      OverlapSnoc(s, c, 1);
      forall k | 2 <= k <= m
        ensures !IsOverlap(t, k)
      {
        OverlapSnoc(s, c, k);
      }
      OverlapIs(t, 1);
    } else {
      forall k | 1 <= k <= m
        ensures !IsOverlap(t, k)
      {
        OverlapSnoc(s, c, k);
      }
      OverlapIs(t, 0);
    }
  }

  /** The full terminator is matched exactly when the bytes end with it. */
  lemma FullOverlap(s: seq<Byte>)
    ensures Overlap(s) == 4 <==> EndsWithTerminator(s)
  {
    if EndsWithTerminator(s) {
      forall i | 0 <= i < 4
        ensures s[|s| - 4 + i] == TERMINATOR[i]
      {
        assert s[|s| - 4..][i] == s[|s| - 4 + i];
      }
    }
    if IsOverlap(s, 4) {
      assert s[|s| - 4..] == TERMINATOR;
    }
  }

  /** The header bytes as text, one character per byte. */
  function AsText(b: seq<Byte>): (r: string)
    ensures |r| == |b|
  {
    if |b| == 0 then [] else [b[0] as char] + AsText(b[1..])
  }

  /** Each character of the text has the code of its byte. */
  lemma {:induction false} AsTextCodes(b: seq<Byte>)
    decreases |b|
    ensures forall i :: 0 <= i < |b| ==> AsText(b)[i] as int == b[i]
  {
    if |b| > 0 {
      AsTextCodes(b[1..]);
      var r := AsText(b);
      forall i | 0 <= i < |b|
        ensures r[i] as int == b[i]
      {
        if i > 0 { assert r[i] == AsText(b[1..])[i - 1]; }
      }
    }
  }

  predicate IsBlank(s: string)
  {
    forall i :: 0 <= i < |s| ==> IsWhitespace(s[i])
  }

  /** The first line of the header text, trimmed. */
  function StatusLine(header: seq<Byte>): string
  {
    Trim(Lines(AsText(header))[0])
  }

  predicate Accepted(statusLine: string)
  {
    StartsWith(statusLine, "ICY 200") || StartsWith(statusLine, "HTTP/1.0 200") || StartsWith(statusLine, "HTTP/1.1 200")
  }

  /** The checks made on a complete header section. */
  function CheckStatus(header: seq<Byte>): Result<string, HttpError>
  {
    var line := StatusLine(header);
    if IsBlank(line) then Failure(MissingStatusLine)
    else if !Accepted(line) then Failure(Rejected(line))
    else Success(line)
  }

  /** The outcome of reading the header section from `rest`. */
  function HeaderOutcome(rest: seq<Byte>): Result<string, HttpError>
  {
    match FirstTerminator(rest)
    case None => Failure(NoResponseBody)
    case Some(n) => CheckStatus(rest[..n])
  }

  /** How many bytes of `rest` the parser reads. */
  function HeaderConsumed(rest: seq<Byte>): nat
  {
    match FirstTerminator(rest)
    case None => |rest|
    case Some(n) => n
  }

  /** One more byte read without having seen the terminator. */
  lemma ScanStep(s: seq<Byte>, n: nat)
    requires n < |s| && NoTerminatorBefore(s, n) && !EndsWithTerminator(s[..n])
    ensures NoTerminatorBefore(s, n + 1) && s[..n + 1] == s[..n] + [s[n]]
  {
  }

  /** The scanning loop of consumeHeadersOrThrow: reads byte by byte until
      the bytes read end with CRLF CRLF or the stream ends, keeping in
      `matched` how much of the terminator the bytes read end with. */
  method ReadHeaderSection(input: ByteStream) returns (header: seq<Byte>, complete: bool)
    requires input.Valid()
    modifies input
    ensures input.Valid() && input.pos == old(input.pos) + |header|
    ensures header == old(input.Remaining())[..|header|]
    ensures complete ==> FirstTerminator(old(input.Remaining())) == Some(|header|)
    ensures !complete ==> FirstTerminator(old(input.Remaining())).None? && header == old(input.Remaining())
  {
    ghost var rest := input.Remaining();
    ghost var start := input.pos;
    header := [];
    var matched := 0;
    while matched < |TERMINATOR|
      invariant input.Valid() && start + |header| == input.pos
      invariant |header| <= |rest| && header == rest[..|header|]
      invariant rest == input.data[start..]
      invariant matched == Overlap(header)
      invariant NoTerminatorBefore(rest, |header|)
      decreases |rest| - |header|
    {
      FullOverlap(header);
      var current := input.Read();
      if current == -1 {
        assert header == rest;
        complete := false;
        return;
      }
      UpdateKeepsOverlap(header, current);
      ScanStep(rest, |header|);
      header := header + [current];
      if current == TERMINATOR[matched] {
        matched := matched + 1;
      } else {
        matched := if current == TERMINATOR[0] then 1 else 0;
      }
    }
    FullOverlap(header);
    FirstTerminatorUnique(rest, |header|);
    complete := true;
  }

  /** consumeHeadersOrThrow: reads exactly up to and including the first
      CRLF CRLF, or the whole stream when there is none, and checks the
      status line. */
  method ConsumeHeadersOrThrow(input: ByteStream) returns (r: Result<string, HttpError>)
    requires input.Valid()
    modifies input
    ensures input.Valid()
    ensures r == HeaderOutcome(old(input.Remaining()))
    ensures input.pos == old(input.pos) + HeaderConsumed(old(input.Remaining()))
  {
    var header, complete := ReadHeaderSection(input);
    if !complete {
      return Failure(NoResponseBody);
    }
    var statusLine := StatusLine(header);
    if IsBlank(statusLine) {
      r := Failure(MissingStatusLine);
    } else if !(StartsWith(statusLine, "ICY 200") || StartsWith(statusLine, "HTTP/1.0 200")
                || StartsWith(statusLine, "HTTP/1.1 200")) {
      r := Failure(Rejected(statusLine));
    } else {
      r := Success(statusLine);
    }
  }

  /** The reader stops right after the header section: whatever follows
      the first CRLF CRLF is left in the stream for the caller. */
  lemma BodyLeftUnread(header: seq<Byte>, body: seq<Byte>)
    requires EndsWithTerminator(header) && NoTerminatorBefore(header, |header|)
    ensures HeaderConsumed(header + body) == |header|
    ensures HeaderOutcome(header + body) == CheckStatus(header)
  {
    var s := header + body;
    assert s[..|header|] == header;
    forall j | 0 <= j < |header|
      ensures !EndsWithTerminator(s[..j])
    {
      assert s[..j] == header[..j];
    }
    FirstTerminatorUnique(s, |header|);
  }

  /** A stream without CRLF CRLF fails after reading everything. */
  lemma NoTerminatorFails(rest: seq<Byte>)
    requires NoTerminatorBefore(rest, |rest| + 1)
    ensures HeaderOutcome(rest) == Failure(NoResponseBody) && HeaderConsumed(rest) == |rest|
  {
  }

  /** The status line holds no line break and no surrounding whitespace,
      and it lies within the first line of the header text. */
  lemma StatusLineShape(header: seq<Byte>)
    ensures var line := StatusLine(header); var first := FirstLine(AsText(header));
      && NoLineBreak(line)
      && (|line| > 0 ==> !IsWhitespace(line[0]) && !IsWhitespace(line[|line| - 1]))
      && (var i := LeadingWhitespace(first); i + |line| <= |first| && line == first[i..i + |line|])
  {
    var text := AsText(header);
    LinesShape(text);
    var first := Lines(text)[0];
    assert NoLineBreak(first);
    TrimmedLine(first);
    assert StatusLine(header) == Trim(first);
  }

  /** A line trimmed keeps no line break and no surrounding whitespace, and
      lies within the line. */
  lemma TrimmedLine(first: string)
    requires NoLineBreak(first)
    ensures NoLineBreak(Trim(first))
    ensures var line := Trim(first);
      && (|line| > 0 ==> !IsWhitespace(line[0]) && !IsWhitespace(line[|line| - 1]))
      && (var i := LeadingWhitespace(first); i + |line| <= |first| && line == first[i..i + |line|])
  {
    TrimNoLineBreak(first);
    TrimSlice(first);
    TrimEnds(first);
  }

  /** A trimmed status line is blank exactly when it is empty. */
  lemma BlankMeansEmpty(header: seq<Byte>)
    ensures IsBlank(StatusLine(header)) <==> StatusLine(header) == []
  {
    var first := Lines(AsText(header))[0];
    TrimShape(first);
  }

  /** The call succeeds exactly when a header section is found and its
      status line begins with one of the three accepted prefixes; the
      value returned is that status line, and a refusal reports it. */
  lemma OutcomeCases(rest: seq<Byte>)
    ensures var r := HeaderOutcome(rest);
      && (r.Success? <==> FirstTerminator(rest).Some? && Accepted(StatusLine(rest[..FirstTerminator(rest).value])))
      && (r.Success? ==> r.value == StatusLine(rest[..FirstTerminator(rest).value]) && r.value != [])
      && (r == Failure(NoResponseBody) <==> FirstTerminator(rest).None?)
      && (r.Failure? && r.error.Rejected? ==>
            r.error.statusLine == StatusLine(rest[..FirstTerminator(rest).value]) && !Accepted(r.error.statusLine))
  {
    if FirstTerminator(rest).Some? {
      var line := StatusLine(rest[..FirstTerminator(rest).value]);
      if Accepted(line) {
        assert |line| > 0;
        assert !IsWhitespace(line[0]) by { BlankMeansEmpty(rest[..FirstTerminator(rest).value]); }
      }
    }
  }

  /** Every refusal message names the refused status line. */
  lemma RejectionNamesStatus(line: string)
    ensures var m := Message(Rejected(line));
      |line| <= |m| && m[|m| - |line|..] == line
  {
  }
}
