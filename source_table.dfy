/** The caster's source table (network/NtripSourceTableParser.kt): the
    `STR;` records of the NTRIP source table, one per line, split on `;`. */
module SourceTable {
  import opened Basics
  import opened Text

  /** One stream of the caster (model/SourceTableModels.kt). The position
      is kept as the number text the field holds. */
  datatype SourceTableEntry = SourceTableEntry(
    mountpoint: string,
    identifier: string,
    format: string,
    navSystem: string,
    country: string,
    latitude: Option<string>,
    longitude: Option<string>)

  /** A record needs this many fields. */
  const MIN_FIELDS: nat := 10

  predicate IsDigit(c: char)
  {
    '0' <= c <= '9'
  }

  /** The number of leading ASCII digits. */
  function Digits(s: string): (n: nat)
    ensures n <= |s|
    ensures forall i :: 0 <= i < n ==> IsDigit(s[i])
    ensures n < |s| ==> !IsDigit(s[n])
  {
    if |s| == 0 || !IsDigit(s[0]) then 0 else 1 + Digits(s[1..])
  }

  /** The exponent part `[eE][+-]?digits`, or nothing. */
  predicate ExponentOrEmpty(s: string)
  {
    |s| == 0 ||
    ((s[0] == 'e' || s[0] == 'E') &&
      var t := if |s| > 1 && (s[1] == '+' || s[1] == '-') then s[2..] else s[1..];
      |t| > 0 && Digits(t) == |t|)
  }

  /** `digits[.digits?][exponent]` or `.digits[exponent]`. */
  predicate IsDecimal(s: string)
  {
    var n := Digits(s);
    if n > 0 then
      var r := s[n..];
      if |r| > 0 && r[0] == '.' then ExponentOrEmpty(r[1..][Digits(r[1..])..]) else ExponentOrEmpty(r)
    else
      |s| >= 2 && s[0] == '.' && Digits(s[1..]) > 0 && ExponentOrEmpty(s[1..][Digits(s[1..])..])
  }

  /** A text `toDoubleOrNull` accepts, after the surrounding control
      characters and spaces: an optional sign, then `NaN`, `Infinity`, or a
      decimal with an optional `f`, `F`, `d` or `D` suffix. */
  predicate IsNumberText(s: string)
  {
    var u := if |s| > 0 && (s[0] == '+' || s[0] == '-') then s[1..] else s;
    u == "NaN" || u == "Infinity" || IsDecimal(u) ||
    (|u| > 0 && (u[|u| - 1] in "fFdD") && IsDecimal(u[..|u| - 1]))
  }

  /** Characters up to the space, which the number screen skips at both ends. */
  predicate IsControlOrSpace(c: char)
  {
    c <= ' '
  }

  function StripStart(s: string): (r: string)
    ensures |r| <= |s| && r == s[|s| - |r|..]
    ensures |r| > 0 ==> !IsControlOrSpace(r[0])
  {
    if |s| > 0 && IsControlOrSpace(s[0]) then StripStart(s[1..]) else s
  }

  function StripEnd(s: string): (r: string)
    ensures |r| <= |s| && r == s[..|r|]
    ensures |r| > 0 ==> !IsControlOrSpace(r[|r| - 1])
  {
    if |s| > 0 && IsControlOrSpace(s[|s| - 1]) then StripEnd(s[..|s| - 1]) else s
  }

  /** `toDoubleOrNull` of a field: the number text when the field holds a
      number, absent otherwise. */
  function Coordinate(field: string): (r: Option<string>)
    ensures r.Some? ==> IsNumberText(r.value) && |r.value| > 0
  {
    var core := StripEnd(StripStart(field));
    if IsNumberText(core) then Some(core) else None
  }

  /** An empty or all-space field gives no coordinate. */
  lemma BlankCoordinate(field: string)
    requires forall i :: 0 <= i < |field| ==> IsControlOrSpace(field[i])
    ensures Coordinate(field) == None
  {
    assert !IsDecimal([]);
  }

  /** `filter`: the elements that satisfy `p`, in order. */
  function Filter<T>(p: T -> bool, xs: seq<T>): (r: seq<T>)
    ensures |r| <= |xs|
    ensures forall k :: 0 <= k < |r| ==> p(r[k])
  {
    if |xs| == 0 then []
    else (if p(xs[0]) then [xs[0]] else []) + Filter(p, xs[1..])
  }

  /** `mapNotNull`: the present results of `f`, in order. */
  function MapNotNull<T, U>(f: T -> Option<U>, xs: seq<T>): (r: seq<U>)
    ensures |r| <= |xs|
  {
    if |xs| == 0 then []
    else
      match f(xs[0])
      case Some(y) => [y] + MapNotNull(f, xs[1..])
      case None => MapNotNull(f, xs[1..])
  }

  lemma {:induction false} FilterAppend<T>(p: T -> bool, a: seq<T>, b: seq<T>)
    ensures Filter(p, a + b) == Filter(p, a) + Filter(p, b)
  {
    if |a| > 0 {
      FilterAppend(p, a[1..], b);
      assert (a + b)[1..] == a[1..] + b;
    } else {
      assert a + b == b;
    }
  }

  lemma {:induction false} MapNotNullAppend<T, U>(f: T -> Option<U>, a: seq<T>, b: seq<T>)
    ensures MapNotNull(f, a + b) == MapNotNull(f, a) + MapNotNull(f, b)
  {
    if |a| > 0 {
      MapNotNullAppend(f, a[1..], b);
      assert (a + b)[1..] == a[1..] + b;
    } else {
      assert a + b == b;
    }
  }

  predicate IsStrLine(line: string)
  {
    StartsWith(line, "STR;")
  }

  /** The entry of one `STR;` line: present when the line has at least ten
      `;`-separated fields. */
  function RecordOf(line: string): Option<SourceTableEntry>
  {
    var parts := Split(line, ';');
    if |parts| < MIN_FIELDS then None
    else Some(SourceTableEntry(
      parts[1], parts[2], parts[3], parts[6], parts[8],
      Coordinate(parts[9]),
      if |parts| > 10 then Coordinate(parts[10]) else None))
  }

  /** parse: the `STR;` lines of the text, each turned into an entry when
      it has enough fields. */
  function Parse(sourceTableText: string): seq<SourceTableEntry>
  {
    MapNotNull(RecordOf, Filter(IsStrLine, Lines(sourceTableText)))
  }

  /** A line gives an entry exactly when it holds at least nine
      separators, that is ten fields. */
  lemma RecordCases(line: string)
    ensures RecordOf(line).Some? <==> Count(line, ';') >= MIN_FIELDS - 1
  {
    SplitJoin(line, ';');
  }

  /** The fields of a record land in the entry: field 1 is the mountpoint,
      2 the identifier, 3 the format, 6 the navigation system, 8 the
      country, 9 and 10 the position; the line is an `STR;` line. */
  lemma ParseRecord(parts: seq<string>)
    requires |parts| >= MIN_FIELDS && parts[0] == "STR"
    requires forall k :: 0 <= k < |parts| ==> Free(parts[k], ';')
    ensures IsStrLine(Join(parts, ';'))
    ensures RecordOf(Join(parts, ';')) == Some(SourceTableEntry(
      parts[1], parts[2], parts[3], parts[6], parts[8],
      Coordinate(parts[9]),
      if |parts| > 10 then Coordinate(parts[10]) else None))
  {
    var line := Join(parts, ';');
    JoinSplit(parts, ';');
    assert line == "STR" + [';'] + Join(parts[1..], ';');
    assert line[..4] == "STR;";
  }

  /** Entries keep the order of the lines they come from: the entries of
      two tables one after the other are those of the first, then those
      of the second. */
  lemma ParseLinesAppend(a: seq<string>, b: seq<string>)
    ensures MapNotNull(RecordOf, Filter(IsStrLine, a + b))
         == MapNotNull(RecordOf, Filter(IsStrLine, a)) + MapNotNull(RecordOf, Filter(IsStrLine, b))
  {
    FilterAppend(IsStrLine, a, b);
    MapNotNullAppend(RecordOf, Filter(IsStrLine, a), Filter(IsStrLine, b));
  }

  /** Filter keeps exactly the elements that satisfy `p`. */
  lemma {:induction false} FilterMembers<T>(p: T -> bool, xs: seq<T>)
    ensures forall x :: x in Filter(p, xs) <==> x in xs && p(x)
  {
    if |xs| > 0 {
      FilterMembers(p, xs[1..]);
      assert xs == [xs[0]] + xs[1..];
    }
  }

  /** mapNotNull yields exactly the present results of `f`. */
  lemma {:induction false} MapNotNullMembers<T, U>(f: T -> Option<U>, xs: seq<T>)
    ensures forall y :: y in MapNotNull(f, xs) <==> exists x :: x in xs && f(x) == Some(y)
  {
    if |xs| > 0 {
      MapNotNullMembers(f, xs[1..]);
      assert xs == [xs[0]] + xs[1..];
      forall y | (exists x :: x in xs && f(x) == Some(y))
        ensures y in MapNotNull(f, xs)
      {
        var x :| x in xs && f(x) == Some(y);
        if x != xs[0] {
          assert x in xs[1..];
        }
      }
    }
  }

  /** Every entry comes from an `STR;` line of the text with at least ten
      fields, and every such line yields its entry: CAS, NET and other
      lines are ignored. */
  lemma EntriesFromStrLines(text: string)
    ensures forall e :: e in Parse(text) <==>
      exists l :: l in Lines(text) && IsStrLine(l) && RecordOf(l) == Some(e)
  {
    var strLines := Filter(IsStrLine, Lines(text));
    FilterMembers(IsStrLine, Lines(text));
    MapNotNullMembers(RecordOf, strLines);
  }

  /** There are at most as many entries as `STR;` lines. */
  lemma {:induction false} AtMostOnePerStrLine(lines: seq<string>)
    ensures |MapNotNull(RecordOf, Filter(IsStrLine, lines))| <= StrLineCount(lines)
  {
    if |lines| > 0 {
      AtMostOnePerStrLine(lines[1..]);
      ParseLinesAppend([lines[0]], lines[1..]);
      assert [lines[0]] + lines[1..] == lines;
    }
  }

  /** The number of lines that start with `STR;`. */
  function StrLineCount(lines: seq<string>): nat
  {
    if |lines| == 0 then 0 else (if IsStrLine(lines[0]) then 1 else 0) + StrLineCount(lines[1..])
  }

  /** A table text read line by line (each line ended by LF): its entries
      are those of the first line followed by those of the rest. */
  lemma ParseFirstLine(line: string, rest: string)
    requires NoLineBreak(line)
    ensures Parse(line + "\n" + rest)
         == MapNotNull(RecordOf, Filter(IsStrLine, [line])) + Parse(rest)
  {
    LineThen(line, "\n", rest);
    ParseLinesAppend([line], Lines(rest));
  }

  /** A record missing any of its ten fields is dropped. */
  lemma ShortRecordDropped()
    ensures IsStrLine(Join(["STR", "TOO_SHORT", "ONLY_THREE_FIELDS"], ';'))
    ensures RecordOf(Join(["STR", "TOO_SHORT", "ONLY_THREE_FIELDS"], ';')) == None
  {
    var parts := ["STR", "TOO_SHORT", "ONLY_THREE_FIELDS"];
    assert forall k :: 0 <= k < |parts| ==> Free(parts[k], ';');
    JoinSplit(parts, ';');
  }

  /** The fields of the second record of the example table. */
  const SECOND_RECORD: seq<string> :=
    ["STR", "MOUNT2", "ID-2", "RTCM 3.3", "1074(1)", "1", "GPS", "NET", "NZ", "", ""]

  /** Empty position fields give no latitude and no longitude. */
  lemma EmptyPosition(parts: seq<string>)
    requires |parts| == 11 && parts[0] == "STR" && parts[9] == [] && parts[10] == []
    requires forall k :: 0 <= k < |parts| ==> Free(parts[k], ';')
    ensures RecordOf(Join(parts, ';'))
         == Some(SourceTableEntry(parts[1], parts[2], parts[3], parts[6], parts[8], None, None))
  {
    ParseRecord(parts);
    BlankCoordinate([]);
  }

  /** The second record of the example table has no position. */
  lemma RecordWithoutPosition()
    ensures RecordOf(Join(SECOND_RECORD, ';'))
         == Some(SourceTableEntry("MOUNT2", "ID-2", "RTCM 3.3", "GPS", "NZ", None, None))
  {
    forall k | 0 <= k < |SECOND_RECORD|
      ensures Free(SECOND_RECORD[k], ';')
    {
    }
    EmptyPosition(SECOND_RECORD);
  }

  /** Spaces and control characters around a number do not change it. */
  lemma PaddedCoordinate(before: string, number: string, after: string)
    requires forall i :: 0 <= i < |before| ==> IsControlOrSpace(before[i])
    requires forall i :: 0 <= i < |after| ==> IsControlOrSpace(after[i])
    requires |number| > 0 && !IsControlOrSpace(number[0]) && !IsControlOrSpace(number[|number| - 1])
    requires IsNumberText(number)
    ensures Coordinate(before + number + after) == Some(number)
  {
    StripPadding(before, number, after);
  }

  /** Both strips together remove exactly the padding. */
  lemma StripPadding(before: string, number: string, after: string)
    requires forall i :: 0 <= i < |before| ==> IsControlOrSpace(before[i])
    requires forall i :: 0 <= i < |after| ==> IsControlOrSpace(after[i])
    requires |number| > 0 && !IsControlOrSpace(number[0]) && !IsControlOrSpace(number[|number| - 1])
    ensures StripEnd(StripStart(before + number + after)) == number
  {
    StripStartPadding(before, number + after);
    assert before + number + after == before + (number + after);
    StripEndPadding(number, after);
  }

  lemma {:induction false} StripStartPadding(pad: string, s: string)
    requires forall i :: 0 <= i < |pad| ==> IsControlOrSpace(pad[i])
    requires |s| > 0 && !IsControlOrSpace(s[0])
    ensures StripStart(pad + s) == s
  {
    if |pad| > 0 {
      var t := pad + s;
      assert t[0] == pad[0];
      assert t[1..] == pad[1..] + s;
      StripStartPadding(pad[1..], s);
      assert StripStart(t) == StripStart(t[1..]);
    } else {
      assert pad + s == s;
    }
  }

  lemma {:induction false} StripEndPadding(s: string, pad: string)
    requires forall i :: 0 <= i < |pad| ==> IsControlOrSpace(pad[i])
    requires |s| > 0 && !IsControlOrSpace(s[|s| - 1])
    ensures StripEnd(s + pad) == s
  {
    if |pad| > 0 {
      var t := s + pad;
      assert t[|t| - 1] == pad[|pad| - 1];
      assert t[..|t| - 1] == s + pad[..|pad| - 1];
      StripEndPadding(s, pad[..|pad| - 1]);
      assert StripEnd(t) == StripEnd(t[..|t| - 1]);
    } else {
      assert s + pad == s;
    }
  }
}
