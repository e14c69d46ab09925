/** The text-table container: a table of little-endian 16-bit offsets (the
    first offset is twice the number of entries), the entry bodies, each an
    encoded string ending in CR LF, and the trailer `1A FF`. Extraction turns
    a table into strings; rebuilding turns the lines of a text file, grouped
    between `-----` separators, back into a table. */
module TextTable {
  import opened Common
  import opened TextUtility

  const CR: char16 := 13
  const LF: char16 := 10

  /** The terminator the rebuild appends to every entry, `"\r\n"`. */
  const LineEnding: Text := [CR, LF]

  /** The line break `AppendLine` inserts between the lines of one entry.
      It is the platform's newline, fixed here as CR LF. */
  const NewLine: Text := [CR, LF]

  /** The separator line `-----` between entries of the text file. */
  const Separator: Text := [45, 45, 45, 45, 45]

  /** The two bytes after the last entry body. */
  const Trailer: seq<byte> := [0x1A, 0xFF]

  datatype TableError =
    | MissingFirstOffset   // fewer than two bytes: no first offset to read
    | InvalidFirstOffset   // the first offset lies past the end of the data

  predicate IsLineBreak(c: char16) {
    c == CR || c == LF
  }

  /** `TrimEnd('\r', '\n')`: the longest prefix not ending in CR or LF. */
  function TrimEnd(t: Text): (r: Text)
    ensures |r| <= |t| && r == t[..|r|]
    ensures |r| > 0 ==> !IsLineBreak(r[|r| - 1])
    ensures forall i :: |r| <= i < |t| ==> IsLineBreak(t[i])
    decreases |t|
  {
    if |t| > 0 && IsLineBreak(t[|t| - 1]) then TrimEnd(t[..|t| - 1]) else t
  }

  /** Appending line breaks does not change what `TrimEnd` keeps. */
  lemma {:induction false} TrimEndBreaks(t: Text, tail: Text)
    requires forall i :: 0 <= i < |tail| ==> IsLineBreak(tail[i])
    ensures TrimEnd(t + tail) == TrimEnd(t)
    decreases |tail|
  {
    if |tail| > 0 {
      var u := t + tail;
      assert u[..|u| - 1] == t + tail[..|tail| - 1];
      TrimEndBreaks(t, tail[..|tail| - 1]);
    } else {
      assert t + tail == t;
    }
  }

  /** A text that does not end in CR or LF is its own `TrimEnd`. */
  lemma TrimEndKeeps(t: Text)
    requires |t| == 0 || !IsLineBreak(t[|t| - 1])
    ensures TrimEnd(t) == t
  {
  }

  // ---------------------------------------------------------------------
  // Extraction

  /** The `i`-th offset of the table, read at byte `2 * i`. */
  function OffsetAt(data: seq<byte>, i: nat): u16
    requires 2 * i + 2 <= |data|
  {
    ReadUInt16LE(data, 2 * i).value
  }

  /** The byte count requested for entry `i`: the distance to the next
      offset, and for the last entry the bytes left before the two-byte
      trailer, both truncated to 16 bits. */
  function EntryLength(data: seq<byte>, offsets: seq<u16>, i: nat): u16
    requires i < |offsets|
  {
    if i == |offsets| - 1 then ToU16(|data| - offsets[i] - 2)
    else ToU16(offsets[i + 1] as int - offsets[i])
  }

  /** The text of entry `i`: its bytes decoded, trailing line breaks removed. */
  function Entry(data: seq<byte>, offsets: seq<u16>, i: nat, useMultibyte: bool): Text
    requires i < |offsets|
  {
    TrimEnd(DecodeBytes(Clamped(data, offsets[i], EntryLength(data, offsets, i)), useMultibyte))
  }

  /** The strings of a table. It fails when there is no first offset or
      when the first offset lies past the end of the data; otherwise there
      is one string per offset, half the first offset many. */
  function DecodeTable(data: seq<byte>, useMultibyte: bool): (r: Result<seq<Text>, TableError>)
    ensures r.Ok? <==> 2 <= |data| && ReadUInt16LE(data, 0).value <= |data|
    ensures r.Ok? ==> |r.value| == ReadUInt16LE(data, 0).value / 2
    ensures |data| < 2 ==> r == Err(MissingFirstOffset)
  {
    if |data| < 2 then Err(MissingFirstOffset)
    else
      var firstOffset := ReadUInt16LE(data, 0).value;
      if firstOffset > |data| then Err(InvalidFirstOffset)
      else
        var n := firstOffset / 2;
        var offsets := seq(n, i requires 0 <= i < n => OffsetAt(data, i));
        Ok(seq(n, i requires 0 <= i < n => Entry(data, offsets, i, useMultibyte)))
  }

  /** The table decoding of `RunExtract`: read the first offset, check it,
      read the offset table from the start, then read every entry. */
  method Extract(data: seq<byte>, useMultibyte: bool) returns (r: Result<seq<Text>, TableError>)
    ensures r == DecodeTable(data, useMultibyte)
  {
    var first := ReadUInt16LE(data, 0);
    if first.Err? {
      return Err(MissingFirstOffset);
    }
    var firstOffset := first.value;
    var numEntries := firstOffset / 2;
    if firstOffset > |data| {
      return Err(InvalidFirstOffset);
    }
    var offsets := ReadOffsets(data, numEntries);
    var strings := ReadTableEntries(data, offsets, useMultibyte);
    return Ok(strings);
  }

  /** The offset loop of `RunExtract`: `numEntries` offsets from byte 0. */
  method ReadOffsets(data: seq<byte>, numEntries: nat) returns (offsets: seq<u16>)
    requires 2 * numEntries <= |data|
    ensures offsets == seq(numEntries, i requires 0 <= i < numEntries => OffsetAt(data, i))
  {
    offsets := [];
    for i := 0 to numEntries
      invariant offsets == seq(i, j requires 0 <= j < i => OffsetAt(data, j))
    {
      var offset := ReadUInt16LE(data, 2 * i).value;
      offsets := offsets + [offset];
    }
  }

  /** The entry loop of `RunExtract`. */
  method ReadTableEntries(data: seq<byte>, offsets: seq<u16>, useMultibyte: bool) returns (strings: seq<Text>)
    ensures strings == seq(|offsets|, i requires 0 <= i < |offsets| => Entry(data, offsets, i, useMultibyte))
  {
    var numEntries := |offsets|;
    strings := [];
    for i := 0 to numEntries
      invariant |strings| == i
      invariant forall j :: 0 <= j < i ==> strings[j] == Entry(data, offsets, j, useMultibyte)
    {
      var stringContent := ReadEntry(data, offsets, i, useMultibyte);
      strings := strings + [stringContent];
    }
  }

  /** One pass of the entry loop: the length, the read, the trimming. */
  method ReadEntry(data: seq<byte>, offsets: seq<u16>, i: nat, useMultibyte: bool) returns (stringContent: Text)
    requires i < |offsets|
    ensures stringContent == Entry(data, offsets, i, useMultibyte)
  {
    var numEntries := |offsets|;
    var offset := offsets[i];
    var length: u16;
    if i == numEntries - 1 {
      length := ToU16(|data| - offset - 2);
    } else {
      length := ToU16(offsets[i + 1] as int - offset);
    }
    assert length == EntryLength(data, offsets, i);
    var content, _ := ReadString(data, offset, length, useMultibyte);
    stringContent := TrimEnd(content);
  }

  /** The text of the file extraction writes: `WriteLine` of every string
      and then of the separator, each line ended by `NewLine`. */
  function FileText(strings: seq<Text>): Text
    decreases |strings|
  {
    if |strings| == 0 then []
    else FileText(strings[..|strings| - 1]) + (strings[|strings| - 1] + NewLine) + (Separator + NewLine)
  }

  /** The lines `ReadLine` returns for the rest `t` of a text, `line` being
      the part of the current line already read: a line ends at CR, at LF or
      at CR LF, and an unterminated last line is returned only when it is
      not empty. */
  function LinesFrom(t: Text, line: Text): seq<Text>
    decreases |t|
  {
    if |t| == 0 then (if |line| > 0 then [line] else [])
    else if t[0] == LF then [line] + LinesFrom(t[1..], [])
    else if t[0] == CR then [line] + LinesFrom(if |t| > 1 && t[1] == LF then t[2..] else t[1..], [])
    else LinesFrom(t[1..], line + [t[0]])
  }

  /** The lines `ReadLine` returns for a whole text, one after the other. */
  function ReadLines(t: Text): seq<Text> {
    LinesFrom(t, [])
  }

  /** The lines the rebuild reads back for one string written by `WriteLine`. */
  function EntryLines(s: Text): seq<Text> {
    ReadLines(s + NewLine)
  }

  /** The lines the rebuild reads from the text file extraction writes. */
  function TextFileLines(strings: seq<Text>): seq<Text> {
    ReadLines(FileText(strings))
  }

  /** `t` with every line break (CR LF, a lone CR or a lone LF) written as
      `NewLine`. */
  function NormalizeBreaks(t: Text): Text
    decreases |t|
  {
    if |t| == 0 then []
    else if t[0] == LF then NewLine + NormalizeBreaks(t[1..])
    else if t[0] == CR then NewLine + NormalizeBreaks(if |t| > 1 && t[1] == LF then t[2..] else t[1..])
    else [t[0]] + NormalizeBreaks(t[1..])
  }

  /** No character of `t` is CR or LF. */
  predicate NoBreak(t: Text) {
    forall i :: 0 <= i < |t| ==> !IsLineBreak(t[i])
  }

  // ---------------------------------------------------------------------
  // Splitting the text file into entries

  /** Lines joined with `NewLine` between them. */
  function Join(group: seq<Text>): Text
    decreases |group|
  {
    if |group| == 0 then []
    else if |group| == 1 then group[0]
    else Join(group[..|group| - 1]) + NewLine + group[|group| - 1]
  }

  /** The runs of lines between separators, the separators dropped: one run
      more than there are separators, the last one still open. */
  function Groups(lines: seq<Text>): (g: seq<seq<Text>>)
    ensures |g| >= 1
    decreases |lines|
  {
    if |lines| == 0 then [[]]
    else
      var g := Groups(lines[..|lines| - 1]);
      var line := lines[|lines| - 1];
      if line == Separator then g + [[]]
      else g[..|g| - 1] + [g[|g| - 1] + [line]]
  }

  /** Every run closed by a separator becomes an entry, also an empty one;
      the open run at the end becomes an entry only if its text is not
      empty. */
  function SplitEntries(lines: seq<Text>): seq<Text> {
    var g := Groups(lines);
    var closed := seq(|g| - 1, i requires 0 <= i < |g| - 1 => Join(g[i]));
    var last := Join(g[|g| - 1]);
    if |last| > 0 then closed + [last] else closed
  }

  /** The entry-reading loop of `RunRebuild`, with the text under
      construction and the flag for the first line of an entry. */
  method ReadEntries(lines: seq<Text>) returns (strings: seq<Text>)
    ensures strings == SplitEntries(lines)
  {
    strings := [];
    var currentString: Text := [];
    var isFirstLine := true;
    for k := 0 to |lines|
      invariant OpenState(Groups(lines[..k]), strings, currentString, isFirstLine)
    {
      var line := lines[k];
      if line == Separator {
        SeparatorStep(lines, k, strings, currentString, isFirstLine);
        strings := strings + [currentString];
        currentString := [];
        isFirstLine := true;
      } else {
        LineStep(lines, k, strings, currentString, isFirstLine);
        if !isFirstLine {
          currentString := currentString + NewLine;
        }
        currentString := currentString + line;
        isFirstLine := false;
      }
    }
    FinalState(lines, strings, currentString, isFirstLine);
    if |currentString| > 0 {
      strings := strings + [currentString];
    }
  }

  /** A separator line closes the open entry. */
  lemma SeparatorStep(lines: seq<Text>, k: nat, strings: seq<Text>, current: Text, isFirstLine: bool)
    requires k < |lines| && lines[k] == Separator
    requires OpenState(Groups(lines[..k]), strings, current, isFirstLine)
    ensures OpenState(Groups(lines[..k + 1]), strings + [current], [], true)
  {
    assert lines[..k + 1][..k] == lines[..k];
    var g := Groups(lines[..k]);
    var none: seq<Text> := [];
    assert Groups(lines[..k + 1]) == g + [none];
    CloseOpen(g, strings, current, isFirstLine);
  }

  lemma CloseOpen(g: seq<seq<Text>>, strings: seq<Text>, current: Text, isFirstLine: bool)
    requires OpenState(g, strings, current, isFirstLine)
    ensures var none: seq<Text> := []; OpenState(g + [none], strings + [current], [], true)
  {
    var none: seq<Text> := [];
    var g' := g + [none];
    assert g'[|g'| - 1] == none;
    assert forall i :: 0 <= i < |g| ==> g'[i] == g[i];
    assert seq(|g'| - 1, i requires 0 <= i < |g'| - 1 => Join(g'[i]))
      == seq(|g| - 1, i requires 0 <= i < |g| - 1 => Join(g[i])) + [current];
  }

  /** Any other line is appended to the open entry, after a line break
      unless it is the entry's first line. */
  lemma LineStep(lines: seq<Text>, k: nat, strings: seq<Text>, current: Text, isFirstLine: bool)
    requires k < |lines| && lines[k] != Separator
    requires OpenState(Groups(lines[..k]), strings, current, isFirstLine)
    ensures OpenState(Groups(lines[..k + 1]), strings,
      (if isFirstLine then current else current + NewLine) + lines[k], false)
  {
    assert lines[..k + 1][..k] == lines[..k];
    var g := Groups(lines[..k]);
    assert Groups(lines[..k + 1]) == g[..|g| - 1] + [g[|g| - 1] + [lines[k]]];
    ExtendOpen(g, lines[k], strings, current, isFirstLine);
  }

  lemma ExtendOpen(g: seq<seq<Text>>, line: Text, strings: seq<Text>, current: Text, isFirstLine: bool)
    requires OpenState(g, strings, current, isFirstLine)
    ensures OpenState(g[..|g| - 1] + [g[|g| - 1] + [line]], strings,
      (if isFirstLine then current else current + NewLine) + line, false)
  {
    var g' := g[..|g| - 1] + [g[|g| - 1] + [line]];
    JoinAppend(g[|g| - 1], line);
    assert g'[|g'| - 1] == g[|g| - 1] + [line];
    assert forall i :: 0 <= i < |g| - 1 ==> g'[i] == g[i];
    assert seq(|g'| - 1, i requires 0 <= i < |g'| - 1 => Join(g'[i]))
      == seq(|g| - 1, i requires 0 <= i < |g| - 1 => Join(g[i]));
  }

  /** After the last line the open entry is kept only if it is not empty. */
  lemma FinalState(lines: seq<Text>, strings: seq<Text>, current: Text, isFirstLine: bool)
    requires OpenState(Groups(lines[..|lines|]), strings, current, isFirstLine)
    ensures SplitEntries(lines) == if |current| > 0 then strings + [current] else strings
  {
    assert lines[..|lines|] == lines;
  }

  /** The loop state of `ReadEntries` after the lines grouped as `g`. */
  ghost predicate OpenState(g: seq<seq<Text>>, strings: seq<Text>, current: Text, isFirstLine: bool) {
    && |g| >= 1
    && strings == seq(|g| - 1, i requires 0 <= i < |g| - 1 => Join(g[i]))
    && current == Join(g[|g| - 1])
    && isFirstLine == (g[|g| - 1] == [])
  }

  /** Joining one more line. */
  lemma JoinAppend(group: seq<Text>, line: Text)
    ensures Join(group + [line]) == if group == [] then line else Join(group) + NewLine + line
  {
    var g := group + [line];
    assert g[..|g| - 1] == group;
  }

  /** No line of `group` is a separator. */
  predicate NoSeparator(group: seq<Text>) {
    forall i :: 0 <= i < |group| ==> group[i] != Separator
  }

  /** Lines without separators extend the open run. */
  lemma {:induction false} GroupsExtend(lines: seq<Text>, tail: seq<Text>)
    requires NoSeparator(tail)
    ensures var g := Groups(lines);
      Groups(lines + tail) == g[..|g| - 1] + [g[|g| - 1] + tail]
    decreases |tail|
  {
    var g := Groups(lines);
    if |tail| == 0 {
      assert lines + tail == lines;
      assert g[|g| - 1] + tail == g[|g| - 1];
    } else {
      var front := tail[..|tail| - 1];
      GroupsExtend(lines, front);
      var u := lines + tail;
      assert u[..|u| - 1] == lines + front;
      assert (g[|g| - 1] + front) + [tail[|tail| - 1]] == g[|g| - 1] + tail;
    }
  }

  /** The lines of closed runs, each followed by a separator. */
  function Closed(groups: seq<seq<Text>>): seq<Text>
    decreases |groups|
  {
    if |groups| == 0 then [] else Closed(groups[..|groups| - 1]) + groups[|groups| - 1] + [Separator]
  }

  /** Runs written with separators are read back as those runs. */
  lemma {:induction false} GroupsOfClosed(groups: seq<seq<Text>>)
    requires forall j :: 0 <= j < |groups| ==> NoSeparator(groups[j])
    ensures Groups(Closed(groups)) == groups + [[]]
    decreases |groups|
  {
    if |groups| > 0 {
      var front := groups[..|groups| - 1];
      var last := groups[|groups| - 1];
      GroupsOfClosed(front);
      GroupsExtend(Closed(front), last);
      var pre := Closed(front) + last;
      var all := pre + [Separator];
      assert all[..|all| - 1] == pre;
      var none: seq<Text> := [];
      var g := front + [none];
      assert g[..|g| - 1] == front && g[|g| - 1] == none;
      assert none + last == last;
      assert front + [last] == groups;
    }
  }

  /** Splitting text written as separated runs, followed by an open run,
      gives the joined runs, and then the open run if its text is not
      empty. */
  lemma SplitClosed(groups: seq<seq<Text>>, tail: seq<Text>)
    requires forall j :: 0 <= j < |groups| ==> NoSeparator(groups[j])
    requires NoSeparator(tail)
    ensures SplitEntries(Closed(groups) + tail) ==
      seq(|groups|, i requires 0 <= i < |groups| => Join(groups[i])) + (if |Join(tail)| > 0 then [Join(tail)] else [])
  {
    GroupsOfClosedTail(groups, tail);
    SplitOfGroups(Closed(groups) + tail, groups, tail);
  }

  lemma GroupsOfClosedTail(groups: seq<seq<Text>>, tail: seq<Text>)
    requires forall j :: 0 <= j < |groups| ==> NoSeparator(groups[j])
    requires NoSeparator(tail)
    ensures Groups(Closed(groups) + tail) == groups + [tail]
  {
    GroupsOfClosed(groups);
    GroupsExtend(Closed(groups), tail);
    var none: seq<Text> := [];
    var open := groups + [none];
    assert open[..|open| - 1] == groups && open[|open| - 1] == none;
    assert none + tail == tail;
  }

  /** `SplitEntries` of lines whose runs are known. */
  lemma SplitOfGroups(lines: seq<Text>, groups: seq<seq<Text>>, tail: seq<Text>)
    requires Groups(lines) == groups + [tail]
    ensures SplitEntries(lines) ==
      seq(|groups|, i requires 0 <= i < |groups| => Join(groups[i])) + (if |Join(tail)| > 0 then [Join(tail)] else [])
  {
    var g := Groups(lines);
    assert |g| - 1 == |groups| && g[|g| - 1] == tail;
    var closed := seq(|g| - 1, i requires 0 <= i < |g| - 1 => Join(g[i]));
    forall i | 0 <= i < |groups|
      ensures closed[i] == Join(groups[i])
    {
      assert g[i] == groups[i];
    }
    assert closed == seq(|groups|, i requires 0 <= i < |groups| => Join(groups[i]));
  }

  /** A text that ends in `NewLine` is read line by line independently of
      what follows it. */
  lemma {:induction false} LinesAppend(p: Text, b: Text, line: Text)
    ensures LinesFrom(p + NewLine + b, line) == LinesFrom(p + NewLine, line) + LinesFrom(b, [])
    decreases |p|
  {
    var t := p + NewLine + b;
    var u := p + NewLine;
    if |p| == 0 {
      assert t[0] == CR && t[1] == LF && t[2..] == b;
      assert u[0] == CR && u[1] == LF && u[2..] == [];
    } else if p[0] == LF {
      assert t[0] == LF && t[1..] == p[1..] + NewLine + b;
      assert u[0] == LF && u[1..] == p[1..] + NewLine;
      LinesAppend(p[1..], b, []);
    } else if p[0] == CR {
      assert t[0] == CR && u[0] == CR;
      if |p| > 1 && p[1] == LF {
        assert t[1] == LF && t[2..] == p[2..] + NewLine + b;
        assert u[1] == LF && u[2..] == p[2..] + NewLine;
        LinesAppend(p[2..], b, []);
      } else {
        assert t[1] == u[1] != LF;
        assert t[1..] == p[1..] + NewLine + b;
        assert u[1..] == p[1..] + NewLine;
        LinesAppend(p[1..], b, []);
      }
    } else {
      assert t[0] == u[0] == p[0];
      assert t[1..] == p[1..] + NewLine + b;
      assert u[1..] == p[1..] + NewLine;
      LinesAppend(p[1..], b, line + [p[0]]);
    }
  }

  /** Reading a concatenation whose first part is empty or ends in
      `NewLine` reads the two parts one after the other. */
  lemma ReadLinesAppend(a: Text, b: Text)
    requires a == [] || (|a| >= 2 && a[|a| - 2..] == NewLine)
    ensures ReadLines(a + b) == ReadLines(a) + ReadLines(b)
  {
    if a == [] {
      assert a + b == b;
    } else {
      var p := a[..|a| - 2];
      assert a == p + NewLine;
      LinesAppend(p, b, []);
    }
  }

  /** A string without line breaks, written as one line, is read back as
      that one line. */
  lemma {:induction false} LinesPlain(s: Text, line: Text)
    requires NoBreak(s)
    ensures LinesFrom(s + NewLine, line) == [line + s]
    decreases |s|
  {
    var t := s + NewLine;
    if |s| == 0 {
      assert t[0] == CR && t[1] == LF && t[2..] == [];
      assert line + s == line;
    } else {
      assert !IsLineBreak(s[0]);
      assert t[0] == s[0] && t[1..] == s[1..] + NewLine;
      LinesPlain(s[1..], line + [s[0]]);
      assert line + [s[0]] + s[1..] == line + s;
    }
  }

  /** Joining one more line at the front. */
  lemma {:induction false} JoinCons(x: Text, rest: seq<Text>)
    requires |rest| >= 1
    ensures Join([x] + rest) == x + NewLine + Join(rest)
    decreases |rest|
  {
    var all := [x] + rest;
    if |rest| == 1 {
      assert all[..1] == [x];
    } else {
      var front := rest[..|rest| - 1];
      assert all[..|all| - 1] == [x] + front;
      assert all[|all| - 1] == rest[|rest| - 1];
      JoinCons(x, front);
    }
  }

  /** The lines read for a string written by `WriteLine`, joined again with
      `NewLine`, are the string with its line breaks normalised. */
  lemma {:induction false} JoinLines(p: Text, line: Text)
    ensures |LinesFrom(p + NewLine, line)| >= 1
    ensures Join(LinesFrom(p + NewLine, line)) == line + NormalizeBreaks(p)
    decreases |p|
  {
    if |p| == 0 {
      var u := p + NewLine;
      assert u[0] == CR && u[1] == LF && u[2..] == [];
      assert line + [] == line;
    } else if IsLineBreak(p[0]) {
      var k := BreakLength(p);
      JoinLines(p[k..], []);
      JoinBreak(p, line);
    } else {
      CharStep(p, line);
      JoinLines(p[1..], line + [p[0]]);
    }
  }

  /** The step of `JoinLines` past a line break. */
  lemma JoinBreak(p: Text, line: Text)
    requires |p| > 0 && IsLineBreak(p[0])
    requires |LinesFrom(p[BreakLength(p)..] + NewLine, [])| >= 1
    requires Join(LinesFrom(p[BreakLength(p)..] + NewLine, [])) == NormalizeBreaks(p[BreakLength(p)..])
    ensures |LinesFrom(p + NewLine, line)| >= 1
    ensures Join(LinesFrom(p + NewLine, line)) == line + NormalizeBreaks(p)
  {
    var rest := p[BreakLength(p)..];
    BreakStep(p, line);
    JoinCons(line, LinesFrom(rest + NewLine, []));
  }

  /** The length of the line break at the start of `p`: 2 for CR LF, else 1. */
  function BreakLength(p: Text): (k: nat)
    requires |p| > 0
    ensures k <= |p|
  {
    if p[0] == CR && |p| > 1 && p[1] == LF then 2 else 1
  }

  /** A line break ends the current line, and is normalised to `NewLine`. */
  lemma BreakStep(p: Text, line: Text)
    requires |p| > 0 && IsLineBreak(p[0])
    ensures LinesFrom(p + NewLine, line) == [line] + LinesFrom(p[BreakLength(p)..] + NewLine, [])
    ensures NormalizeBreaks(p) == NewLine + NormalizeBreaks(p[BreakLength(p)..])
  {
    var u := p + NewLine;
    assert u[0] == p[0];
    if BreakLength(p) == 2 {
      assert u[1] == LF && u[2..] == p[2..] + NewLine;
    } else {
      assert p[0] == CR ==> u[1] != LF;
      assert u[1..] == p[1..] + NewLine;
    }
  }

  /** Any other character is added to the current line and kept. */
  lemma CharStep(p: Text, line: Text)
    requires |p| > 0 && !IsLineBreak(p[0])
    ensures LinesFrom(p + NewLine, line) == LinesFrom(p[1..] + NewLine, line + [p[0]])
    ensures NormalizeBreaks(p) == [p[0]] + NormalizeBreaks(p[1..])
  {
    var u := p + NewLine;
    assert u[0] == p[0] && u[1..] == p[1..] + NewLine;
  }

  /** Normalising a text without line breaks leaves it unchanged. */
  lemma {:induction false} NormalizeKeeps(s: Text)
    requires NoBreak(s)
    ensures NormalizeBreaks(s) == s
    decreases |s|
  {
    if |s| > 0 {
      assert !IsLineBreak(s[0]);
      NormalizeKeeps(s[1..]);
    }
  }

  /** The separator line itself holds no line break. */
  lemma SeparatorPlain()
    ensures NoBreak(Separator)
    ensures ReadLines(Separator + NewLine) == [Separator]
  {
    LinesPlain(Separator, []);
    assert [] + Separator == Separator;
  }

  /** The text file is read back as the lines of every string, each run of
      them closed by a separator line. */
  lemma {:induction false} TextFileClosed(strings: seq<Text>)
    ensures TextFileLines(strings) == Closed(seq(|strings|, i requires 0 <= i < |strings| => EntryLines(strings[i])))
    decreases |strings|
  {
    if |strings| > 0 {
      var front := strings[..|strings| - 1];
      var e := strings[|strings| - 1];
      var f := FileText(front);
      TextFileClosed(front);
      FileTextEnds(front);
      ReadLinesAppend(f, e + NewLine);
      var g := f + (e + NewLine);
      assert g[|g| - 2..] == NewLine;
      ReadLinesAppend(g, Separator + NewLine);
      SeparatorPlain();
      var groups := seq(|strings|, i requires 0 <= i < |strings| => EntryLines(strings[i]));
      assert groups[..|groups| - 1] == seq(|front|, i requires 0 <= i < |front| => EntryLines(front[i]));
    }
  }

  /** The file text is empty or ends in `NewLine`. */
  lemma FileTextEnds(strings: seq<Text>)
    ensures FileText(strings) == [] || (|FileText(strings)| >= 2 && FileText(strings)[|FileText(strings)| - 2..] == NewLine)
  {
    if |strings| > 0 {
      var f := FileText(strings[..|strings| - 1]) + (strings[|strings| - 1] + NewLine);
      var all := f + (Separator + NewLine);
      assert all[|all| - 2..] == NewLine;
    }
  }

  /** The text file extraction writes, read back and split at the separator
      lines, gives the extracted strings with their line breaks written as
      `NewLine`, provided no line of a string is itself `-----`. */
  lemma SplitTextFile(strings: seq<Text>)
    requires forall i :: 0 <= i < |strings| ==> NoSeparator(EntryLines(strings[i]))
    ensures SplitEntries(TextFileLines(strings)) == seq(|strings|, i requires 0 <= i < |strings| => NormalizeBreaks(strings[i]))
  {
    var groups := seq(|strings|, i requires 0 <= i < |strings| => EntryLines(strings[i]));
    TextFileClosed(strings);
    SplitClosed(groups, []);
    assert Closed(groups) + [] == Closed(groups);
    forall i | 0 <= i < |strings|
      ensures Join(groups[i]) == NormalizeBreaks(strings[i])
    {
      JoinLines(strings[i], []);
      assert [] + NormalizeBreaks(strings[i]) == NormalizeBreaks(strings[i]);
    }
  }

  /** Strings without line breaks that are not themselves `-----` survive
      the text file unchanged. */
  lemma PlainTextFile(strings: seq<Text>)
    requires forall i :: 0 <= i < |strings| ==> NoBreak(strings[i]) && strings[i] != Separator
    ensures SplitEntries(TextFileLines(strings)) == strings
  {
    forall i | 0 <= i < |strings|
      ensures EntryLines(strings[i]) == [strings[i]]
      ensures NormalizeBreaks(strings[i]) == strings[i]
    {
      LinesPlain(strings[i], []);
      assert [] + strings[i] == strings[i];
      NormalizeKeeps(strings[i]);
    }
    SplitTextFile(strings);
  }

  /** The entry `A` LF `B` is written as two lines and comes back with the
      break as CR LF. */
  lemma BreakNormalized()
    ensures SplitEntries(TextFileLines([[65, LF, 66]])) == [[65, CR, LF, 66]]
  {
    var s: Text := [65, LF, 66];
    var u := s + NewLine;
    assert u[0] == 65 && u[1..] == [LF, 66] + NewLine;
    CharStep(s, []);
    assert [] + [s[0]] == [65] && s[1..] == [LF, 66];
    BreakStep([LF, 66], [65]);
    assert [LF, 66][1..] == [66];
    LinesPlain([66], []);
    assert [] + [66] == [66];
    assert EntryLines(s) == [[65], [66]];
    assert NormalizeBreaks(s) == [65] + NormalizeBreaks([LF, 66]);
    assert NormalizeBreaks([LF, 66]) == NewLine + NormalizeBreaks([66]);
    NormalizeKeeps([66]);
    assert NormalizeBreaks(s) == [65, CR, LF, 66];
    assert NoSeparator(EntryLines([s][0]));
    SplitTextFile([s]);
    assert seq(1, i requires 0 <= i < 1 => NormalizeBreaks([s][i])) == [NormalizeBreaks(s)];
  }

  /** An entry one of whose lines is `-----` comes back as two entries. */
  lemma SeparatorLineSplits()
    ensures SplitEntries(TextFileLines([[65, LF] + Separator])) == [[65], []]
  {
    var s: Text := [65, LF] + Separator;
    var u := s + NewLine;
    assert u[0] == 65 && u[1..] == [LF] + Separator + NewLine;
    CharStep(s, []);
    assert [] + [s[0]] == [65] && s[1..] == [LF] + Separator;
    BreakStep([LF] + Separator, [65]);
    assert ([LF] + Separator)[1..] == Separator;
    SeparatorPlain();
    assert EntryLines(s) == [[65], Separator];
    TextFileClosed([s]);
    var one := seq(1, i requires 0 <= i < 1 => EntryLines([s][i]));
    assert one == [[[65], Separator]];
    var none: seq<Text> := [];
    var groups := [[[65]], none];
    assert Closed(one) == [[65], Separator, Separator];
    assert Closed(groups) == [[65], Separator, Separator] by {
      assert groups[..1] == [[[65]]];
      assert Closed([[[65]]]) == [[65], Separator];
    }
    SplitClosed(groups, []);
    assert Closed(groups) + [] == Closed(groups);
    assert Join([[65]]) == [65];
  }

  // ---------------------------------------------------------------------
  // Rebuilding

  /** The encoded body of an entry: the string with the line ending added. */
  function Body(s: Text, useMultibyte: bool): seq<byte> {
    EncodeChars(s + LineEnding, useMultibyte)
  }

  function Bodies(strings: seq<Text>, useMultibyte: bool): (r: seq<seq<byte>>)
    ensures |r| == |strings|
  {
    seq(|strings|, i requires 0 <= i < |strings| => Body(strings[i], useMultibyte))
  }

  function Sizes(parts: seq<seq<byte>>): (r: seq<nat>)
    ensures |r| == |parts|
  {
    seq(|parts|, i requires 0 <= i < |parts| => |parts[i]|)
  }

  /** The offset table for bodies of the given sizes: body `i` starts after
      the table (two bytes per body) and the bodies before it, truncated to
      16 bits. No bodies still get one offset, 0. */
  function TableOffsets(sizes: seq<nat>): (r: seq<u16>)
    ensures |r| == if |sizes| == 0 then 1 else |sizes|
  {
    var n := |sizes|;
    if n == 0 then [0]
    else seq(n, i requires 0 <= i < n => OffsetFor(sizes, i))
  }

  /** Where body `i` starts, truncated to 16 bits. */
  function OffsetFor(sizes: seq<nat>, i: nat): u16
    requires i <= |sizes|
  {
    ToU16(2 * |sizes| + Sum(sizes, i))
  }

  /** The bytes of the offsets, two per offset. */
  function OffsetBytes(offsets: seq<u16>): (r: seq<seq<byte>>)
    ensures |r| == |offsets|
  {
    seq(|offsets|, i requires 0 <= i < |offsets| => WriteUInt16LE(offsets[i]))
  }

  /** A table around the given bodies: the offsets, the bodies, the trailer. */
  function Layout(bodies: seq<seq<byte>>): seq<byte> {
    Flatten(OffsetBytes(TableOffsets(Sizes(bodies)))) + Flatten(bodies) + Trailer
  }

  /** The table the rebuild writes for a list of strings. */
  function EncodeTable(strings: seq<Text>, useMultibyte: bool): seq<byte> {
    Layout(Bodies(strings, useMultibyte))
  }

  /** The table encoding of `RunRebuild`: encode every entry, accumulate
      the offsets, then write offsets, bodies and the trailer. */
  method Rebuild(strings: seq<Text>, useMultibyte: bool) returns (output: seq<byte>)
    ensures output == EncodeTable(strings, useMultibyte)
  {
    var encodedStrings := EncodeEntries(strings, useMultibyte);
    var offsets := OffsetsLoop(encodedStrings);
    ghost var header := Flatten(OffsetBytes(offsets));
    output := WriteParts([], OffsetBytes(offsets));
    assert output == header;
    output := WriteParts(output, encodedStrings);
    output := output + [0x1A];
    output := output + [0xFF];
    assert output == header + Flatten(encodedStrings) + Trailer;
  }

  /** The encoding loop of `RunRebuild`: each string with its line ending. */
  method EncodeEntries(strings: seq<Text>, useMultibyte: bool) returns (encodedStrings: seq<seq<byte>>)
    ensures encodedStrings == Bodies(strings, useMultibyte)
  {
    encodedStrings := [];
    for i := 0 to |strings|
      invariant |encodedStrings| == i
      invariant forall j :: 0 <= j < i ==> encodedStrings[j] == Body(strings[j], useMultibyte)
    {
      var encoded := EncodeString(strings[i] + LineEnding, useMultibyte);
      encodedStrings := encodedStrings + [encoded];
    }
  }

  /** The offset loop of `RunRebuild`: `currentOffset` starts at the table
      size and grows by each body's length, both as 16-bit values. */
  method OffsetsLoop(encodedStrings: seq<seq<byte>>) returns (offsets: seq<u16>)
    ensures offsets == TableOffsets(Sizes(encodedStrings))
  {
    var numEntries := |encodedStrings|;
    ghost var sizes := Sizes(encodedStrings);
    var offsetTableSize := numEntries * 2;
    var currentOffset := ToU16(offsetTableSize);
    offsets := [currentOffset];
    FirstOffset(sizes);
    var i := 1;
    while i < numEntries
      invariant 1 <= i <= |TableOffsets(sizes)|
      invariant TableOffsets(sizes)[..i] == offsets && currentOffset == offsets[i - 1]
    {
      NextOffset(sizes, i, offsets);
      currentOffset := ToU16(currentOffset + ToU16(|encodedStrings[i - 1]|));
      offsets := offsets + [currentOffset];
      i := i + 1;
    }
    assert TableOffsets(sizes)[..i] == TableOffsets(sizes);
  }

  /** The first offset is the size of the offset table. */
  lemma FirstOffset(sizes: seq<nat>)
    ensures TableOffsets(sizes)[..1] == [ToU16(2 * |sizes|)]
    ensures |sizes| <= 1 ==> TableOffsets(sizes) == [ToU16(2 * |sizes|)]
  {
  }

  /** One step of the running offset in 16-bit arithmetic. */
  lemma NextOffset(sizes: seq<nat>, i: nat, offsets: seq<u16>)
    requires 1 <= i < |sizes|
    requires offsets == TableOffsets(sizes)[..i]
    ensures offsets + [ToU16(offsets[i - 1] + ToU16(sizes[i - 1]))] == TableOffsets(sizes)[..i + 1]
  {
    var start := 2 * |sizes|;
    ToU16Add(start + Sum(sizes, i - 1), sizes[i - 1]);
  }

  /** A writing loop of `RunRebuild`: each part appended to the output in
      order. */
  method WriteParts(output: seq<byte>, parts: seq<seq<byte>>) returns (written: seq<byte>)
    ensures written == output + Flatten(parts)
  {
    written := output;
    for k := 0 to |parts|
      invariant written == output + Flatten(parts[..k])
    {
      assert parts[..k + 1][..k] == parts[..k];
      written := written + parts[k];
    }
    assert parts[..|parts|] == parts;
  }

  /** The whole rebuild from the lines of the text file. */
  method RebuildFromLines(lines: seq<Text>, useMultibyte: bool) returns (output: seq<byte>)
    ensures output == EncodeTable(SplitEntries(lines), useMultibyte)
  {
    var strings := ReadEntries(lines);
    output := Rebuild(strings, useMultibyte);
  }

  // ---------------------------------------------------------------------
  // Properties of the table layout

  /** The sizes of all bodies together. */
  function TotalSize(bodies: seq<seq<byte>>): nat {
    Sum(Sizes(bodies), |bodies|)
  }

  lemma OffsetBytesLength(offsets: seq<u16>)
    ensures |Flatten(OffsetBytes(offsets))| == 2 * |offsets|
  {
    var parts := OffsetBytes(offsets);
    FlattenUniformStart(parts, 2, |parts|);
    assert parts[..|parts|] == parts;
  }

  lemma FlattenLength(parts: seq<seq<byte>>)
    ensures |Flatten(parts)| == TotalSize(parts)
  {
    RunStartIsSum(parts, Sizes(parts), |parts|);
    assert parts[..|parts|] == parts;
  }

  /** The table is two bytes per offset, the bodies and the trailer. */
  lemma LayoutLength(bodies: seq<seq<byte>>)
    ensures |Layout(bodies)| == 2 * (if |bodies| == 0 then 1 else |bodies|) + TotalSize(bodies) + 2
  {
    OffsetBytesLength(TableOffsets(Sizes(bodies)));
    FlattenLength(bodies);
  }

  /** An empty list of strings gives the single offset 0 and the trailer. */
  lemma EmptyTable(useMultibyte: bool)
    ensures EncodeTable([], useMultibyte) == [0, 0, 0x1A, 0xFF]
  {
    var bodies := Bodies([], useMultibyte);
    assert bodies == [];
    var offs := TableOffsets(Sizes(bodies));
    assert offs == [0];
    var parts := OffsetBytes(offs);
    assert parts == [[0, 0]];
    assert parts[..0] == [];
    assert Flatten(parts) == [0, 0];
  }

  /** When the table and all bodies fit in 16 bits, offset `i` is the
      position where body `i` starts. */
  lemma OffsetValue(sizes: seq<nat>, i: nat)
    requires i < |sizes|
    requires 2 * |sizes| + Sum(sizes, |sizes|) < 0x1_0000
    ensures TableOffsets(sizes)[i] == 2 * |sizes| + Sum(sizes, i)
  {
    SumMonotone(sizes, i, |sizes|);
  }

  /** The offset table reads back from the start of the data. */
  lemma ReadOffset(data: seq<byte>, offsets: seq<u16>, i: nat)
    requires 2 * |offsets| <= |data| && data[..2 * |offsets|] == Flatten(OffsetBytes(offsets))
    requires i < |offsets|
    ensures 2 * i + 2 <= |data| && OffsetAt(data, i) == offsets[i]
  {
    var parts := OffsetBytes(offsets);
    FlattenSlice(parts, i);
    FlattenUniformStart(parts, 2, i);
    FlattenUniformStart(parts, 2, i + 1);
    var header := data[..2 * |offsets|];
    assert header[2 * i..2 * i + 2] == parts[i] == WriteUInt16LE(offsets[i]);
    assert data[2 * i] == offsets[i] % 0x100;
    assert data[2 * i + 1] == (offsets[i] / 0x100) % 0x100;
    ByteJoin(offsets[i]);
  }

  /** A table that fits the 16-bit offsets reads back its own offsets. */
  lemma LayoutOffsets(bodies: seq<seq<byte>>)
    requires |bodies| >= 1
    requires 2 * |bodies| + TotalSize(bodies) < 0x1_0000
    ensures var data := Layout(bodies);
      && 2 <= |data| && ReadUInt16LE(data, 0).value == 2 * |bodies| <= |data|
      && seq(|bodies|, i requires 0 <= i < |bodies| => OffsetAt(data, i)) == TableOffsets(Sizes(bodies))
  {
    var data := Layout(bodies);
    var n := |bodies|;
    var offs := TableOffsets(Sizes(bodies));
    LayoutLength(bodies);
    OffsetBytesLength(offs);
    assert data[..2 * n] == Flatten(OffsetBytes(offs));
    ReadOffset(data, offs, 0);
    OffsetValue(Sizes(bodies), 0);
    forall i | 0 <= i < n
      ensures OffsetAt(data, i) == offs[i]
    {
      ReadOffset(data, offs, i);
    }
  }

  /** Entry `i` of a table that fits the 16-bit offsets is read from
      exactly the bytes of body `i`. */
  lemma LayoutBody(bodies: seq<seq<byte>>, i: nat)
    requires i < |bodies|
    requires 2 * |bodies| + TotalSize(bodies) < 0x1_0000
    ensures var data := Layout(bodies); var offs := TableOffsets(Sizes(bodies));
      Clamped(data, offs[i], EntryLength(data, offs, i)) == bodies[i]
  {
    LayoutEntryLength(bodies, i);
    LayoutSlice(bodies, i);
  }

  /** The requested length of entry `i` is the length of body `i`. */
  lemma LayoutEntryLength(bodies: seq<seq<byte>>, i: nat)
    requires i < |bodies|
    requires 2 * |bodies| + TotalSize(bodies) < 0x1_0000
    ensures var data := Layout(bodies); var offs := TableOffsets(Sizes(bodies));
      EntryLength(data, offs, i) == |bodies[i]| && offs[i] + |bodies[i]| + 2 <= |data|
  {
    var n := |bodies|;
    var sizes := Sizes(bodies);
    LayoutLength(bodies);
    OffsetValue(sizes, i);
    SumMonotone(sizes, i + 1, n);
    assert Sum(sizes, i + 1) == Sum(sizes, i) + sizes[i];
    if i + 1 < n {
      OffsetValue(sizes, i + 1);
    }
  }

  /** Body `i` lies at offset `i` of the table. */
  lemma LayoutSlice(bodies: seq<seq<byte>>, i: nat)
    requires i < |bodies|
    requires 2 * |bodies| + TotalSize(bodies) < 0x1_0000
    ensures var data := Layout(bodies); var offs := TableOffsets(Sizes(bodies));
      offs[i] + |bodies[i]| <= |data| && data[offs[i]..offs[i] + |bodies[i]|] == bodies[i]
  {
    var data := Layout(bodies);
    var n := |bodies|;
    var sizes := Sizes(bodies);
    var offs := TableOffsets(sizes);
    var header := Flatten(OffsetBytes(offs));
    OffsetBytesLength(offs);
    OffsetValue(sizes, i);
    var whole := header + Flatten(bodies);
    assert data == whole + Trailer;
    assert whole[2 * n..] == Flatten(bodies);
    RunAt(whole, 2 * n, bodies, sizes, i);
    assert data[offs[i]..offs[i] + sizes[i]] == whole[offs[i]..offs[i] + sizes[i]];
  }

  /** Decoding a body gives the round-tripped string, once trailing line
      breaks are removed. */
  lemma DecodeBody(s: Text, useMultibyte: bool)
    ensures TrimEnd(DecodeBytes(Body(s, useMultibyte), useMultibyte)) == TrimEnd(RoundTripText(s, useMultibyte))
  {
    var t := s + LineEnding;
    DecodeEncode(t, useMultibyte);
    var rt := RoundTripText(s, useMultibyte);
    assert RoundTripText(t, useMultibyte) == rt + LineEnding;
    TrimEndBreaks(rt, LineEnding);
  }

  /** The sizes of all bodies of `strings` together. */
  function TotalBodySize(strings: seq<Text>, useMultibyte: bool): nat {
    TotalSize(Bodies(strings, useMultibyte))
  }

  /** The length of a rebuilt table. */
  lemma EncodeTableLength(strings: seq<Text>, useMultibyte: bool)
    ensures |EncodeTable(strings, useMultibyte)| ==
      2 * (if |strings| == 0 then 1 else |strings|) + TotalBodySize(strings, useMultibyte) + 2
  {
    LayoutLength(Bodies(strings, useMultibyte));
  }

  /** What extraction gives back for a string the rebuild wrote: the string
      as it survives the character encoding, trailing line breaks removed. */
  function Restored(s: Text, useMultibyte: bool): Text {
    TrimEnd(RoundTripText(s, useMultibyte))
  }

  /** Every string of `strings` restored. */
  function RestoredAll(strings: seq<Text>, useMultibyte: bool): seq<Text> {
    seq(|strings|, i requires 0 <= i < |strings| => Restored(strings[i], useMultibyte))
  }

  /** Extracting a rebuilt table gives back every string restored, as long
      as the table fits the 16-bit offsets. */
  lemma DecodeEncodeTable(strings: seq<Text>, useMultibyte: bool)
    requires 2 * |strings| + TotalBodySize(strings, useMultibyte) < 0x1_0000
    ensures DecodeTable(EncodeTable(strings, useMultibyte), useMultibyte) == Ok(RestoredAll(strings, useMultibyte))
  {
    if |strings| == 0 {
      EmptyTable(useMultibyte);
      EmptyTableDecodes(useMultibyte);
      assert RestoredAll(strings, useMultibyte) == [];
    } else {
      DecodeNonEmpty(strings, useMultibyte);
    }
  }

  lemma DecodeNonEmpty(strings: seq<Text>, useMultibyte: bool)
    requires |strings| >= 1
    requires 2 * |strings| + TotalBodySize(strings, useMultibyte) < 0x1_0000
    ensures DecodeTable(EncodeTable(strings, useMultibyte), useMultibyte) == Ok(RestoredAll(strings, useMultibyte))
  {
    var bodies := Bodies(strings, useMultibyte);
    var data := Layout(bodies);
    var offs := TableOffsets(Sizes(bodies));
    assert EncodeTable(strings, useMultibyte) == data;
    LayoutOffsets(bodies);
    DecodeLayout(data, offs, useMultibyte);
    EntriesRestored(strings, useMultibyte);
  }

  /** Entry by entry, the rebuilt table holds the restored strings. */
  lemma EntriesRestored(strings: seq<Text>, useMultibyte: bool)
    requires |strings| >= 1
    requires 2 * |strings| + TotalBodySize(strings, useMultibyte) < 0x1_0000
    ensures var bodies := Bodies(strings, useMultibyte);
      var data := Layout(bodies); var offs := TableOffsets(Sizes(bodies));
      seq(|offs|, i requires 0 <= i < |offs| => Entry(data, offs, i, useMultibyte)) == RestoredAll(strings, useMultibyte)
  {
    var bodies := Bodies(strings, useMultibyte);
    var data := Layout(bodies);
    var offs := TableOffsets(Sizes(bodies));
    var entries := seq(|offs|, i requires 0 <= i < |offs| => Entry(data, offs, i, useMultibyte));
    var restored := RestoredAll(strings, useMultibyte);
    forall i | 0 <= i < |strings|
      ensures entries[i] == restored[i]
    {
      LayoutBody(bodies, i);
      DecodeBody(strings[i], useMultibyte);
    }
  }

  /** The table of no strings extracts to no strings. */
  lemma EmptyTableDecodes(useMultibyte: bool)
    ensures DecodeTable([0, 0, 0x1A, 0xFF], useMultibyte) == Ok([])
  {
    var data: seq<byte> := [0, 0, 0x1A, 0xFF];
    assert ReadUInt16LE(data, 0).value == 0;
  }

  /** A table whose first offset fits and whose offsets read back as
      `offsets` decodes entry by entry. */
  lemma DecodeLayout(data: seq<byte>, offsets: seq<u16>, useMultibyte: bool)
    requires 2 <= |data| && ReadUInt16LE(data, 0).value == 2 * |offsets| <= |data|
    requires seq(|offsets|, i requires 0 <= i < |offsets| => OffsetAt(data, i)) == offsets
    ensures DecodeTable(data, useMultibyte) ==
      Ok(seq(|offsets|, i requires 0 <= i < |offsets| => Entry(data, offsets, i, useMultibyte)))
  {
  }

  /** No string ends in CR or LF. */
  predicate NoTrailingBreak(strings: seq<Text>) {
    forall i :: 0 <= i < |strings| ==> |strings[i]| == 0 || !IsLineBreak(strings[i][|strings[i]| - 1])
  }

  /** In single-byte mode a rebuilt table extracts to the original strings
      when all characters are at most 0xFF, no string ends in a line break
      and the table fits the 16-bit offsets. */
  lemma SingleByteRoundTrip(strings: seq<Text>)
    requires forall i, j :: 0 <= i < |strings| && 0 <= j < |strings[i]| ==> strings[i][j] <= 0xFF
    requires NoTrailingBreak(strings)
    requires 2 * |strings| + TotalBodySize(strings, false) < 0x1_0000
    ensures DecodeTable(EncodeTable(strings, false), false) == Ok(strings)
  {
    DecodeEncodeTable(strings, false);
    var restored := RestoredAll(strings, false);
    forall i | 0 <= i < |strings|
      ensures restored[i] == strings[i]
    {
      var t := strings[i];
      assert forall j :: 0 <= j < |t| ==> t[j] <= 0xFF;
      RestoredSingle(t);
    }
    assert restored == strings;
  }

  lemma RestoredSingle(s: Text)
    requires forall j :: 0 <= j < |s| ==> s[j] <= 0xFF
    requires |s| == 0 || !IsLineBreak(s[|s| - 1])
    ensures Restored(s, false) == s
  {
    SingleExact(s);
    DecodeEncode(s, false);
    TrimEndKeeps(s);
  }

  /** The same in multibyte mode, for characters at most 127 or at least
      0x8000. */
  lemma MultibyteRoundTrip(strings: seq<Text>)
    requires forall i, j :: 0 <= i < |strings| && 0 <= j < |strings[i]| ==> strings[i][j] <= 127 || strings[i][j] >= 0x8000
    requires NoTrailingBreak(strings)
    requires 2 * |strings| + TotalBodySize(strings, true) < 0x1_0000
    ensures DecodeTable(EncodeTable(strings, true), true) == Ok(strings)
  {
    DecodeEncodeTable(strings, true);
    var restored := RestoredAll(strings, true);
    forall i | 0 <= i < |strings|
      ensures restored[i] == strings[i]
    {
      var t := strings[i];
      assert forall j :: 0 <= j < |t| ==> t[j] <= 127 || t[j] >= 0x8000;
      RestoredMultibyte(t);
    }
    assert restored == strings;
  }

  lemma RestoredMultibyte(s: Text)
    requires forall j :: 0 <= j < |s| ==> s[j] <= 127 || s[j] >= 0x8000
    requires |s| == 0 || !IsLineBreak(s[|s| - 1])
    ensures Restored(s, true) == s
  {
    MultibyteExact(s);
    DecodeEncode(s, true);
    TrimEndKeeps(s);
  }

  /** `["HELLO", "WORLD"]` gives the offsets 4 and 11, the two bodies and
      the trailer. */
  lemma HelloWorld()
    ensures EncodeTable([[72, 69, 76, 76, 79], [87, 79, 82, 76, 68]], false) ==
      [4, 0, 11, 0, 72, 69, 76, 76, 79, 13, 10, 87, 79, 82, 76, 68, 13, 10, 0x1A, 0xFF]
  {
    var hello: seq<byte> := [72, 69, 76, 76, 79, 13, 10];
    var world: seq<byte> := [87, 79, 82, 76, 68, 13, 10];
    HelloWorldBodies();
    LayoutTwo(hello, world);
    var whole := [4, 0, 11, 0] + (hello + world) + Trailer;
    assert |whole| == 20;
  }

  lemma HelloWorldBodies()
    ensures Bodies([[72, 69, 76, 76, 79], [87, 79, 82, 76, 68]], false) ==
      [[72, 69, 76, 76, 79, 13, 10], [87, 79, 82, 76, 68, 13, 10]]
  {
    var strings: seq<Text> := [[72, 69, 76, 76, 79], [87, 79, 82, 76, 68]];
    LiteralBody(strings[0], [72, 69, 76, 76, 79, 13, 10]);
    LiteralBody(strings[1], [87, 79, 82, 76, 68, 13, 10]);
  }

  /** A string of byte-sized characters followed by the line ending, as
      one literal. */
  lemma LiteralBody(s: Text, b: seq<byte>)
    requires |b| == |s| + 2 && b[|s|..] == [13, 10]
    requires forall i :: 0 <= i < |s| ==> s[i] == b[i]
    ensures Body(s, false) == b
  {
    SingleBody(s, b[..|s|]);
    assert b[..|s|] + [13, 10] == b;
  }

  /** Two bodies of seven bytes each sit at offsets 4 and 11. */
  lemma LayoutTwo(hello: seq<byte>, world: seq<byte>)
    requires |hello| == 7 && |world| == 7
    ensures Layout([hello, world]) == [4, 0, 11, 0] + (hello + world) + Trailer
  {
    var bodies := [hello, world];
    FlattenTwo(hello, world);
    HelloWorldOffsets(hello, world);
    var parts: seq<seq<byte>> := [[4, 0], [11, 0]];
    assert OffsetBytes([4, 11]) == parts;
    FlattenTwo(parts[0], parts[1]);
  }

  lemma HelloWorldOffsets(hello: seq<byte>, world: seq<byte>)
    requires |hello| == 7 && |world| == 7
    ensures TableOffsets(Sizes([hello, world])) == [4, 11]
  {
    var sizes := Sizes([hello, world]);
    assert sizes == [7, 7];
    assert Sum(sizes, 1) == 7;
  }

  /** Two runs flattened. */
  lemma FlattenTwo<T>(a: seq<T>, b: seq<T>)
    ensures Flatten([a, b]) == a + b
  {
    var parts := [a, b];
    assert parts[..1] == [a] && parts[..1][..0] == [];
    assert Flatten([a]) == a;
  }

  /** A string of byte-sized characters is written byte for byte. */
  lemma SingleBody(s: Text, b: seq<byte>)
    requires |s| == |b| && forall i :: 0 <= i < |s| ==> s[i] == b[i]
    ensures Body(s, false) == b + [13, 10]
  {
    var t := s + LineEnding;
    EncodeSingle(t);
    var e := EncodeChars(t, false);
    assert forall i :: 0 <= i < |t| ==> e[i] == (b + [13, 10])[i];
  }
}
