/** The Kotlin string operations the NTRIP code relies on: `trim`,
    `startsWith`, `lineSequence` and `split(';')`, over the ASCII range. */
module Text {

  /** Kotlin's `Char.isWhitespace` restricted to ASCII: tab, line feed,
      vertical tab, form feed, carriage return, the four separators 28..31
      and the space. */
  predicate IsWhitespace(c: char)
  {
    ('\t' <= c <= '\r') || ('\U{1C}' <= c <= ' ')
  }

  predicate IsLineBreak(c: char)
  {
    c == '\r' || c == '\n'
  }

  predicate StartsWith(s: string, prefix: string)
  {
    |prefix| <= |s| && s[..|prefix|] == prefix
  }

  /** The number of leading whitespace characters. */
  function LeadingWhitespace(s: string): (n: nat)
    ensures n <= |s|
    ensures forall i :: 0 <= i < n ==> IsWhitespace(s[i])
    ensures n < |s| ==> !IsWhitespace(s[n])
  {
    if |s| == 0 || !IsWhitespace(s[0]) then 0 else 1 + LeadingWhitespace(s[1..])
  }

  /** The number of trailing whitespace characters. */
  function TrailingWhitespace(s: string): (n: nat)
    ensures n <= |s|
    ensures forall i :: |s| - n <= i < |s| ==> IsWhitespace(s[i])
    ensures n < |s| ==> !IsWhitespace(s[|s| - n - 1])
  {
    if |s| == 0 || !IsWhitespace(s[|s| - 1]) then 0 else 1 + TrailingWhitespace(s[..|s| - 1])
  }

  /** `trim()`: the text between the leading and the trailing whitespace. */
  function Trim(s: string): string
  {
    var t := s[LeadingWhitespace(s)..];
    t[..|t| - TrailingWhitespace(t)]
  }

  /** What Trim keeps is the run of `s` after its leading whitespace. */
  lemma TrimSlice(s: string)
    ensures var r := Trim(s); var i := LeadingWhitespace(s);
      i + |r| <= |s| && r == s[i..i + |r|]
  {
  }

  /** A text that neither starts nor ends with whitespace trims to itself. */
  lemma TrimKeeps(s: string)
    requires |s| > 0 && !IsWhitespace(s[0]) && !IsWhitespace(s[|s| - 1])
    ensures Trim(s) == s
  {
    assert LeadingWhitespace(s) == 0;
    assert s[0..] == s;
    assert TrailingWhitespace(s) == 0;
  }

  /** Everything Trim cuts off is whitespace. */
  lemma TrimCuts(s: string)
    ensures var r := Trim(s); var i := LeadingWhitespace(s);
      forall k :: i + |r| <= k < |s| ==> IsWhitespace(s[k])
  {
    var i := LeadingWhitespace(s);
    var t := s[i..];
    var r := Trim(s);
    forall k | i + |r| <= k < |s|
      ensures IsWhitespace(s[k])
    {
      assert s[k] == t[k - i];
    }
  }

  /** What Trim keeps neither starts nor ends with whitespace. */
  lemma TrimEnds(s: string)
    ensures var r := Trim(s);
      |r| > 0 ==> !IsWhitespace(r[0]) && !IsWhitespace(r[|r| - 1])
  {
    var t := s[LeadingWhitespace(s)..];
    var j := TrailingWhitespace(t);
    var r := Trim(s);
    if |r| > 0 {
      assert r[0] == t[0];
      assert r[|r| - 1] == t[|t| - j - 1];
    }
  }

  /** Trim keeps a contiguous run of the input, everything it cuts off is
      whitespace, and what it keeps neither starts nor ends with whitespace. */
  lemma TrimShape(s: string)
    ensures var r := Trim(s); var i := LeadingWhitespace(s);
      && i + |r| <= |s| && r == s[i..i + |r|]
      && (forall k :: 0 <= k < i ==> IsWhitespace(s[k]))
      && (forall k :: i + |r| <= k < |s| ==> IsWhitespace(s[k]))
      && (|r| > 0 ==> !IsWhitespace(r[0]) && !IsWhitespace(r[|r| - 1]))
  {
    TrimSlice(s);
    TrimCuts(s);
    TrimEnds(s);
  }

  /** Trimming a text without line breaks gives a text without them. */
  lemma TrimNoLineBreak(s: string)
    requires NoLineBreak(s)
    ensures NoLineBreak(Trim(s))
  {
    TrimSlice(s);
    var i := LeadingWhitespace(s);
    var r := Trim(s);
    forall k | 0 <= k < |r|
      ensures !IsLineBreak(r[k])
    {
      assert r[k] == s[i + k];
    }
  }

  /** A trimmed text is blank exactly when it is empty. */
  lemma TrimBlank(s: string)
    ensures Trim(s) == [] <==> forall k :: 0 <= k < |s| ==> IsWhitespace(s[k])
  {
    TrimShape(s);
  }

  /** Trimming twice trims nothing more. */
  lemma TrimIdempotent(s: string)
    ensures Trim(Trim(s)) == Trim(s)
  {
    TrimShape(s);
    var r := Trim(s);
    TrimShape(r);
    if |r| > 0 {
      assert LeadingWhitespace(r) == 0;
      assert TrailingWhitespace(r) == 0;
    }
  }

  /** The text up to, not including, the first line break. */
  function FirstLine(s: string): (r: string)
    ensures |r| <= |s| && r == s[..|r|]
    ensures forall i :: 0 <= i < |r| ==> !IsLineBreak(r[i])
    ensures |r| < |s| ==> IsLineBreak(s[|r|])
  {
    if |s| == 0 || IsLineBreak(s[0]) then [] else [s[0]] + FirstLine(s[1..])
  }

  /** `lineSequence()`: the lines separated by CRLF, LF or CR. A text that
      ends in a line break yields one last empty line, and the empty text
      yields one empty line. */
  function Lines(s: string): (r: seq<string>)
    ensures |r| >= 1
    decreases |s|
  {
    if |s| == 0 then [[]]
    else if s[0] == '\n' then [[]] + Lines(s[1..])
    else if s[0] == '\r' then
      if |s| > 1 && s[1] == '\n' then [[]] + Lines(s[2..]) else [[]] + Lines(s[1..])
    else
      var rest := Lines(s[1..]);
      [[s[0]] + rest[0]] + rest[1..]
  }

  predicate NoLineBreak(s: string)
  {
    forall i :: 0 <= i < |s| ==> !IsLineBreak(s[i])
  }

  /** No line holds a line break, and the first line is FirstLine. */
  lemma {:induction false} LinesShape(s: string)
    decreases |s|
    ensures Lines(s)[0] == FirstLine(s)
    ensures forall k :: 0 <= k < |Lines(s)| ==> NoLineBreak(Lines(s)[k])
  {
    if |s| == 0 {
    } else if s[0] == '\n' {
      LinesShape(s[1..]);
    } else if s[0] == '\r' {
      if |s| > 1 && s[1] == '\n' { LinesShape(s[2..]); } else { LinesShape(s[1..]); }
    } else {
      LinesShape(s[1..]);
      var rest := Lines(s[1..]);
      assert Lines(s) == [[s[0]] + rest[0]] + rest[1..];
      forall k | 0 <= k < |Lines(s)|
        ensures NoLineBreak(Lines(s)[k])
      {
        if k > 0 { assert Lines(s)[k] == rest[k]; }
      }
    }
  }

  /** A text without line breaks is one line. */
  lemma {:induction false} SingleLine(l: string)
    requires NoLineBreak(l)
    ensures Lines(l) == [l]
  {
    if |l| > 0 {
      SingleLine(l[1..]);
      assert [l[0]] + l[1..] == l;
    }
  }

  /** A line ended by `end` (CRLF, LF, or a CR not followed by LF) is the
      first line, and the rest splits on its own. */
  lemma {:induction false} LineThen(l: string, end: string, rest: string)
    requires NoLineBreak(l)
    requires end == "\r\n" || end == "\n" || (end == "\r" && !(|rest| > 0 && rest[0] == '\n'))
    decreases |l|
    ensures Lines(l + end + rest) == [l] + Lines(rest)
  {
    var s := l + end + rest;
    if |l| == 0 {
      assert s == end + rest;
      if end == "\r\n" { assert s[2..] == rest; }
      else { assert s[1..] == rest; }
    } else {
      LineThen(l[1..], end, rest);
      assert s[1..] == l[1..] + end + rest;
      assert [l[0]] + l[1..] == l;
    }
  }

  /** The character count of `c` in `s`. */
  function Count(s: string, c: char): nat
  {
    if |s| == 0 then 0 else (if s[0] == c then 1 else 0) + Count(s[1..], c)
  }

  /** `split(sep)`: the pieces between the separators, empty pieces kept. */
  function Split(s: string, sep: char): (r: seq<string>)
    ensures |r| >= 1
  {
    if |s| == 0 then [[]]
    else
      var rest := Split(s[1..], sep);
      if s[0] == sep then [[]] + rest else [[s[0]] + rest[0]] + rest[1..]
  }

  /** The pieces joined back with `sep`. */
  function Join(parts: seq<string>, sep: char): string
    requires |parts| >= 1
  {
    if |parts| == 1 then parts[0] else parts[0] + [sep] + Join(parts[1..], sep)
  }

  predicate Free(s: string, sep: char)
  {
    forall i :: 0 <= i < |s| ==> s[i] != sep
  }

  /** Split yields one piece more than there are separators, no piece holds
      the separator, and joining the pieces gives the text back. */
  lemma SplitJoin(s: string, sep: char)
    ensures |Split(s, sep)| == Count(s, sep) + 1
    ensures forall k :: 0 <= k < |Split(s, sep)| ==> Free(Split(s, sep)[k], sep)
    ensures Join(Split(s, sep), sep) == s
  {
    SplitCount(s, sep);
    SplitFree(s, sep);
    SplitJoinBack(s, sep);
  }

  lemma {:induction false} SplitCount(s: string, sep: char)
    ensures |Split(s, sep)| == Count(s, sep) + 1
  {
    if |s| > 0 {
      SplitCount(s[1..], sep);
    }
  }

  lemma {:induction false} SplitFree(s: string, sep: char)
    ensures forall k :: 0 <= k < |Split(s, sep)| ==> Free(Split(s, sep)[k], sep)
  {
    if |s| > 0 {
      SplitFree(s[1..], sep);
      var rest, r := Split(s[1..], sep), Split(s, sep);
      if s[0] == sep {
        assert r == [[]] + rest;
        forall k | 0 <= k < |r|
          ensures Free(r[k], sep)
        {
          if k > 0 { assert r[k] == rest[k - 1]; }
        }
      } else {
        assert r == [[s[0]] + rest[0]] + rest[1..];
        forall k | 0 <= k < |r|
          ensures Free(r[k], sep)
        {
          if k > 0 { assert r[k] == rest[k]; }
        }
      }
    }
  }

  lemma {:induction false} SplitJoinBack(s: string, sep: char)
    ensures Join(Split(s, sep), sep) == s
  {
    if |s| > 0 {
      SplitJoinBack(s[1..], sep);
      var rest, r := Split(s[1..], sep), Split(s, sep);
      assert s == [s[0]] + s[1..];
      if s[0] == sep {
        assert r == [[]] + rest;
        assert r[1..] == rest;
      } else {
        assert r == [[s[0]] + rest[0]] + rest[1..];
        if |rest| > 1 {
          assert r[1..] == rest[1..];
          assert Join(rest, sep) == rest[0] + [sep] + Join(rest[1..], sep);
        }
      }
    }
  }

  /** Joining pieces that do not hold the separator and splitting again
      gives the pieces back. */
  lemma {:induction false} JoinSplit(parts: seq<string>, sep: char)
    requires |parts| >= 1 && forall k :: 0 <= k < |parts| ==> Free(parts[k], sep)
    decreases |parts|, |parts[0]|
    ensures Split(Join(parts, sep), sep) == parts
  {
    var p := parts[0];
    if |p| > 0 {
      var tail := [p[1..]] + parts[1..];
      assert tail[0] == p[1..];
      assert forall k :: 0 <= k < |tail| ==> Free(tail[k], sep) by {
        forall k | 0 <= k < |tail| ensures Free(tail[k], sep) {
          if k > 0 { assert tail[k] == parts[k]; }
        }
      }
      JoinSplit(tail, sep);
      if |parts| == 1 {
        assert Join(parts, sep) == p;
        assert Join(tail, sep) == p[1..];
      } else {
        assert tail[1..] == parts[1..];
        assert Join(tail, sep) == p[1..] + [sep] + Join(parts[1..], sep);
      }
      var s := Join(parts, sep);
      assert s[0] == p[0];
      assert s[1..] == Join(tail, sep);
      assert [p[0]] + p[1..] == p;
    } else if |parts| > 1 {
      JoinSplit(parts[1..], sep);
      var s := Join(parts, sep);
      assert s == [sep] + Join(parts[1..], sep);
      assert s[1..] == Join(parts[1..], sep);
    }
  }
}
