/** Parsing a rendered unified diff gives back its added lines, at their places in the new files. */
module DiffLaws {
  import opened Common
  import opened Decimal
  import opened Text
  import opened DiffParser

  // ----- Scanning what was printed -----

  lemma {:induction false} ScanConcat(c: Cursor, a: seq<string>, b: seq<string>)
    ensures Scan(c, a + b) == Scan(Scan(c, a), b)
  {
    hide Step;
    if b == [] {
      assert a + b == a;
    } else {
      ScanConcat(c, a, b[..|b| - 1]);
      assert (a + b)[..|a + b| - 1] == a + b[..|b| - 1];
    }
  }

  lemma {:induction false} ScanNeutral(c: Cursor, lines: seq<string>)
    requires forall i :: 0 <= i < |lines| ==> Neutral(lines[i])
    ensures Scan(c, lines) == c
  {
    if lines != [] { ScanNeutral(c, lines[..|lines| - 1]); }
  }

  lemma {:induction false} PlusNumberFound(a: string, n: nat, rest: string)
    requires '+' !in a && Stops(rest)
    ensures PlusNumber(a + "+" + NatStr(n) + rest) == Some(n)
  {
    var s := a + "+" + NatStr(n) + rest;
    if a == [] {
      SpanOfNumeral(n, rest);
      NatRoundTrip(n);
      assert s[1..] == NatStr(n) + rest;
      assert s[1..1 + |NatStr(n)|] == NatStr(n);
    } else {
      PlusNumberFound(a[1..], n, rest);
      assert s[1..] == a[1..] + "+" + NatStr(n) + rest;
    }
  }

  lemma RangeHasNoPlus(before: nat, count: nat)
    ensures '+' !in Range(before, count)
  {
    var n := if count == 0 then before else before + 1;
    assert forall i :: 0 <= i < |NatStr(n)| ==> IsDigit(NatStr(n)[i]);
    assert forall i :: 0 <= i < |NatStr(count)| ==> IsDigit(NatStr(count)[i]);
  }

  lemma HeaderNumber(start: string, newBefore: nat, count: nat, heading: string)
    requires '+' !in start
    ensures PlusNumber(start + "+" + Range(newBefore, count) + " @@" + heading)
            == Some(if count == 0 then newBefore else newBefore + 1)
  {
    hide PlusNumber, NatStr;
    var n := if count == 0 then newBefore else newBefore + 1;
    var tail := if count == 1 then "" else "," + NatStr(count);
    var rest := tail + " @@" + heading;
    assert Range(newBefore, count) == NatStr(n) + tail;
    assert start + "+" + (NatStr(n) + tail) + " @@" + heading == start + "+" + NatStr(n) + rest;
    PlusNumberFound(start, n, rest);
  }

  /** A hunk header sets the counter to the number of the hunk's first new line. */
  lemma HeaderSetsCounter(c: Cursor, oldBefore: nat, newBefore: nat, lines: seq<DiffLine>, heading: string)
    ensures Step(c, HunkHeader(oldBefore, newBefore, lines, heading)) ==
            c.(line := if NewSide(lines) == [] then newBefore else newBefore + 1)
  {
    hide PlusNumber, NatStr, Range;
    var start := HeaderStart(oldBefore, OldCount(lines));
    RangeHasNoPlus(oldBefore, OldCount(lines));
    HeaderNumber(start, newBefore, |NewSide(lines)|, heading);
    var raw := HunkHeader(oldBefore, newBefore, lines, heading);
    assert raw[0] == start[0] && raw[1] == start[1];
  }

  // ----- What any line does -----

  /** A plus sign with a digit behind it. */
  ghost predicate PlusDigit(s: string, i: nat) {
    i + 1 < |s| && s[i] == '+' && IsDigit(s[i + 1])
  }

  /** The number after the first plus sign that has a digit behind it, up to the first character that is no digit. */
  ghost predicate FirstNumber(s: string, i: nat, n: nat) {
    && PlusDigit(s, i) && (forall j: nat | j < i :: !PlusDigit(s, j))
    && n == NatVal(s[i + 1..i + 1 + Span(s[i + 1..])])
  }

  lemma {:induction false} PlusNumberIs(s: string)
    ensures PlusNumber(s).None? ==> forall i: nat :: !PlusDigit(s, i)
    ensures PlusNumber(s).Some? ==> exists i: nat :: FirstNumber(s, i, PlusNumber(s).value)
  {
    if s != [] {
      var rest := s[1..];
      PlusNumberIs(rest);
      assert PlusDigit(s, 0) <==> s[0] == '+' && Span(rest) > 0;
      forall i: nat ensures PlusDigit(s, i + 1) <==> PlusDigit(rest, i) {}
      if PlusDigit(s, 0) {
        assert FirstNumber(s, 0, PlusNumber(s).value);
      } else {
        forall i: nat | PlusDigit(s, i) ensures i > 0 && PlusDigit(rest, i - 1) {}
        if PlusNumber(s).Some? {
          var i: nat :| FirstNumber(rest, i, PlusNumber(rest).value);
          LaterNumber(s, i, PlusNumber(rest).value);
        }
      }
    }
  }

  lemma LaterNumber(s: string, i: nat, n: nat)
    requires s != [] && !PlusDigit(s, 0) && FirstNumber(s[1..], i, n)
    ensures FirstNumber(s, i + 1, n)
  {
    var rest := s[1..];
    assert rest[i + 1..] == s[i + 2..];
    var k := Span(rest[i + 1..]);
    assert rest[i + 1..i + 1 + k] == s[i + 2..i + 2 + k];
    assert PlusDigit(s, i + 1) <==> PlusDigit(rest, i);
    forall j: nat | j < i + 1 ensures !PlusDigit(s, j) {
      if j > 0 { assert PlusDigit(s, j) <==> PlusDigit(rest, j - 1); }
    }
  }

  /** A `+++ ` line names the file: what it gives stripped, without one leading `b/`, and nothing for `/dev/null`. */
  lemma FileHeaderNames(c: Cursor, rest: string)
    ensures var name := Strip(rest);
            var after := Step(c, "+++ " + rest);
            && after == c.(path := after.path)
            && (name == "/dev/null" ==> after.path == "")
            && (name != "/dev/null" && (forall tail :: name != "b/" + tail) ==> after.path == name)
            && forall tail :: name == "b/" + tail ==> after.path == tail
  {
    hide Strip;
    var raw := "+++ " + rest;
    assert raw[4..] == rest && IsFileHeader(raw);
    var name := Strip(rest);
    if "b/" <= name { assert name == "b/" + name[2..]; }
    forall tail | name == "b/" + tail ensures name[2..] == tail && name[0] == 'b' {}
    assert name == "/dev/null" ==> name[0] == '/';
  }

  /** A line that begins with `@@` sets the counter to its first number after a plus sign, and to 0 without one. */
  lemma HunkHeaderNumbers(c: Cursor, rest: string)
    ensures var raw := "@@" + rest;
            var after := Step(c, raw);
            && after == c.(line := after.line)
            && ((exists i: nat :: PlusDigit(raw, i)) ==> exists i, n: nat :: FirstNumber(raw, i, n) && after.line == n)
            && ((forall i: nat :: !PlusDigit(raw, i)) ==> after.line == 0)
  {
    var raw := "@@" + rest;
    assert raw[0] == '@' && raw[1] == '@';
    PlusNumberIs(raw);
  }

  /** Of all other lines, one that begins with a plus sign but not with three is an added line, one that begins with a
      space is counted, and the rest do nothing. */
  lemma OtherLines(c: Cursor, raw: string)
    requires !("+++ " <= raw) && !("@@" <= raw)
    ensures Step(c, raw) ==
            if "+" <= raw && !("+++" <= raw) then
              Cursor(c.path, c.line + 1,
                     if c.path == "" then c.added else c.added + [AddedLine(c.path, c.line, raw[1..])])
            else if " " <= raw then c.(line := c.line + 1)
            else c
  {
    assert Repeats(raw, '+', 3) <==> "+++" <= raw;
    assert Repeats(raw, '@', 2) <==> "@@" <= raw;
    assert Repeats(raw, '+', 1) <==> "+" <= raw;
    assert Repeats(raw, ' ', 1) <==> " " <= raw;
    assert IsFileHeader(raw) ==> "+++ " <= raw;
    hide Repeats, IsFileHeader;
    assert Repeats(raw, '+', 1) ==> raw[0] == '+';
  }

  lemma StepLine(c: Cursor, l: DiffLine)
    requires l.Added? ==> !Repeats(l.text, '+', 2)
    ensures Step(c, PrintLine(l)) ==
            Cursor(c.path, c.line + if l.Context? || l.Added? then 1 else 0,
                   if l.Added? && c.path != "" then c.added + [AddedLine(c.path, c.line, l.text)] else c.added)
  {
    var raw := PrintLine(l);
    match l
    case Added(t) =>
      assert raw[0] == '+' && raw[1..] == t;
      assert forall i :: 0 <= i < |t| ==> raw[i + 1] == t[i];
      PlusesMove(t);
    case Context(t) => assert raw[0] == ' ';
    case Removed(t) => assert raw[0] == '-';
    case NoNewlineMark => assert raw[0] == '\\';
    case BlankContext =>
  }

  lemma PlusesMove(t: string)
    ensures Repeats("+" + t, '+', 3) <==> Repeats(t, '+', 2)
  {
    var raw := "+" + t;
    assert forall i :: 0 <= i < |t| ==> raw[i + 1] == t[i];
    if Repeats(raw, '+', 3) {
      assert t[0] == raw[1] && t[1] == raw[2];
    }
  }

  /** What lands in the report while the current file is `path`. */
  function Reported(path: string, adds: seq<AddedLine>): seq<AddedLine> {
    if path == "" then [] else adds
  }

  lemma {:induction false} ScanHunk(path: string, first: int, added: seq<AddedLine>, lines: seq<DiffLine>)
    requires CleanLines(lines)
    ensures Scan(Cursor(path, first, added), PrintLines(lines)) ==
            Cursor(path, first + Counted(lines), added + Reported(path, HunkSeen(path, first, lines)))
  {
    hide Step, PrintLine, Repeats;
    if lines != [] {
      var n := |lines| - 1;
      var init := lines[..n];
      ScanHunk(path, first, added, init);
      assert PrintLines(lines)[..n] == PrintLines(init);
      StepLine(Cursor(path, first + Counted(init), added + Reported(path, HunkSeen(path, first, init))), lines[n]);
    }
  }

  lemma {:induction false} NothingNewNothingAdded(path: string, first: int, lines: seq<DiffLine>)
    requires NewSide(lines) == []
    ensures HunkSeen(path, first, lines) == []
  {
    if lines != [] { NothingNewNothingAdded(path, first, lines[..|lines| - 1]); }
  }

  /** A scan of a body keeps the file and reports these additions. */
  ghost predicate Reports(c: Cursor, lines: seq<string>, adds: seq<AddedLine>) {
    Scan(c, lines).path == c.path && Scan(c, lines).added == c.added + Reported(c.path, adds)
  }

  lemma ScanSegment(c: Cursor, before: seq<Segment>, s: Segment)
    requires s.Hunk? && CleanLines(s.lines)
    ensures Reports(c, PrintSegment(before, s), HunkSeen(c.path, |NewFile(before)| + 1, s.lines))
  {
    hide Step, Scan, CleanLines, HunkHeader, NewSide, HunkSeen, OldLength;
    var n := |NewFile(before)|;
    var first := if NewSide(s.lines) == [] then n else n + 1;
    var header := HunkHeader(OldLength(before), n, s.lines, s.heading);
    HeaderSetsCounter(c, OldLength(before), n, s.lines, s.heading);
    ScanConcat(c, [header], PrintLines(s.lines));
    ScanOne(c, header);
    ScanHunk(c.path, first, c.added, s.lines);
    if NewSide(s.lines) == [] {
      NothingNewNothingAdded(c.path, n, s.lines);
      NothingNewNothingAdded(c.path, n + 1, s.lines);
    }
  }

  lemma ScanOne(c: Cursor, raw: string)
    ensures Scan(c, [raw]) == Step(c, raw)
  {
    assert [raw][..0] == [];
  }

  lemma ReportsConcat(c: Cursor, a: seq<string>, b: seq<string>, x: seq<AddedLine>, y: seq<AddedLine>)
    requires Reports(c, a, x) && Reports(Scan(c, a), b, y)
    ensures Reports(c, a + b, x + y)
  {
    hide Scan;
    ScanConcat(c, a, b);
    assert c.added + (x + y) == c.added + x + y;
  }

  lemma {:induction false} ScanBody(c: Cursor, body: seq<Segment>)
    requires CleanBody(body)
    ensures Reports(c, PrintBody(body), BodySeen(c.path, body))
  {
    if body != [] {
      hide Scan, CleanLines, PrintSegment, HunkSeen;
      var n := |body| - 1;
      var init, s := body[..n], body[n];
      ScanBody(c, init);
      SegmentReports(Scan(c, PrintBody(init)), init, s);
      assert Scan(c, PrintBody(init)).path == c.path;
      ReportsConcat(c, PrintBody(init), PrintSegment(init, s), BodySeen(c.path, init), SegmentSeen(c.path, init, s));
    }
  }

  lemma SegmentReports(c: Cursor, before: seq<Segment>, s: Segment)
    requires s.Hunk? ==> CleanLines(s.lines)
    ensures Reports(c, PrintSegment(before, s), SegmentSeen(c.path, before, s))
  {
    if s.Hunk? {
      ScanSegment(c, before, s);
    }
  }

  lemma {:induction false} StripRightTrailer(s: string, trailer: string)
    requires s != [] && !IsSpace(s[|s| - 1]) && forall c :: c in trailer ==> IsSpace(c)
    ensures StripRight(s + trailer) == s
  {
    if trailer == [] {
      assert s + trailer == s;
    } else {
      var n := |trailer| - 1;
      assert trailer[n] in trailer;
      assert (s + trailer)[..|s + trailer| - 1] == s + trailer[..n];
      StripRightTrailer(s, trailer[..n]);
    }
  }

  lemma StripTrailer(s: string, trailer: string)
    requires s != [] && !IsSpace(s[0]) && !IsSpace(s[|s| - 1]) && forall c :: c in trailer ==> IsSpace(c)
    ensures Strip(s + trailer) == s
  {
    StripRightTrailer(s, trailer);
  }

  /** The new-file header selects the file, or none for a deletion. */
  lemma HeaderSelectsFile(c: Cursor, f: FileDiff)
    requires WellFormed(f)
    ensures Step(c, NewHeader(f)) == c.(path := if f.target.Some? then f.target.value else "")
  {
    var raw := NewHeader(f);
    assert IsFileHeader(raw);
    if f.target.Some? {
      var p := f.target.value;
      assert raw[4..] == ("b/" + p) + f.trailer;
      StripTrailer("b/" + p, f.trailer);
      assert ("b/" + p)[2..] == p;
      NotDevNull(p);
    } else {
      assert raw[4..] == "/dev/null" + f.trailer;
      StripTrailer("/dev/null", f.trailer);
    }
  }

  lemma {:induction false} StripRightEnds(s: string)
    ensures StripRight(s) <= s
    ensures StripRight(s) == [] || !IsSpace(StripRight(s)[|StripRight(s)| - 1])
  {
    if s != [] && IsSpace(s[|s| - 1]) { StripRightEnds(s[..|s| - 1]); }
  }

  /** A file name is read back from its header exactly when it does not end in white space. */
  lemma NameReadBackIff(p: string, trailer: string)
    requires p != "" && forall c :: c in trailer ==> IsSpace(c)
    ensures TargetPath("+++ " + ("b/" + p) + trailer) == p <==> !IsSpace(p[|p| - 1])
  {
    var s := ("b/" + p) + trailer;
    assert ("+++ " + ("b/" + p) + trailer)[4..] == s;
    assert s[0] == 'b' && StripLeft(s) == s;
    NotDevNull(p);
    if !IsSpace(p[|p| - 1]) {
      StripTrailer("b/" + p, trailer);
      assert ("b/" + p)[2..] == p;
    } else {
      StripRightEnds(s);
    }
  }

  lemma NotDevNull(p: string)
    ensures "b/" + p != "/dev/null" && "b/" <= "b/" + p
  {
    assert ("b/" + p)[0] == 'b';
  }

  lemma OldHeaderIgnored(c: Cursor, oldName: string)
    ensures Step(c, "--- " + oldName) == c
  {
    var raw := "--- " + oldName;
    assert raw[0] == '-' && raw[1] == '-' && raw[2] == '-';
  }

  /** From any state, scanning one printed file reports its additions, at the numbers counted, and nothing else. */
  lemma ScanFile(c: Cursor, f: FileDiff)
    requires WellFormed(f) && CleanBody(f.body)
    ensures Scan(c, PrintFile(f)).added == c.added + FileSeen(f)
  {
    hide Step, NewHeader, BodySeen, WellFormed;
    var headers := ["--- " + f.oldName, NewHeader(f)];
    var path := if f.target.Some? then f.target.value else "";
    ScanConcat(c, f.preamble + headers, PrintBody(f.body));
    ScanConcat(c, f.preamble, headers);
    PreambleNeutral(f);
    ScanNeutral(c, f.preamble);
    ScanConcat(c, ["--- " + f.oldName], [NewHeader(f)]);
    assert headers == ["--- " + f.oldName] + [NewHeader(f)];
    ScanOne(c, "--- " + f.oldName);
    OldHeaderIgnored(c, f.oldName);
    ScanOne(c, NewHeader(f));
    HeaderSelectsFile(c, f);
    ScanBody(c.(path := path), f.body);
    TargetNotEmpty(f);
  }

  lemma PreambleNeutral(f: FileDiff)
    requires WellFormed(f)
    ensures forall i :: 0 <= i < |f.preamble| ==> Neutral(f.preamble[i])
  {
  }

  lemma TargetNotEmpty(f: FileDiff)
    requires WellFormed(f)
    ensures f.target.Some? ==> f.target.value != ""
  {
  }

  lemma {:induction false} ScanFiles(c: Cursor, files: seq<FileDiff>)
    requires AllWellFormed(files) && Clean(files)
    ensures Scan(c, PrintFiles(files)).added == c.added + AllSeen(files)
  {
    hide Step, WellFormed, PrintFile, FileSeen;
    if files != [] {
      var n := |files| - 1;
      ScanFiles(c, files[..n]);
      ScanConcat(c, PrintFiles(files[..n]), PrintFile(files[n]));
      ScanFile(Scan(c, PrintFiles(files[..n])), files[n]);
    }
  }

  // ----- The text is the lines -----

  ghost predicate AllOneLine(lines: seq<string>) {
    forall i :: 0 <= i < |lines| ==> OneLine(lines[i])
  }

  lemma {:induction false} SplitOfJoin(lines: seq<string>)
    requires AllOneLine(lines)
    ensures Split(JoinLines(lines), '\n') == lines + [""]
  {
    if lines != [] {
      SplitOfJoin(lines[1..]);
      SplitHead(lines[0], '\n', JoinLines(lines[1..]));
      assert lines == [lines[0]] + lines[1..];
    }
  }

  lemma RangeOneLine(before: nat, count: nat)
    ensures OneLine(Range(before, count))
  {
    var n := if count == 0 then before else before + 1;
    assert forall i :: 0 <= i < |NatStr(n)| ==> IsDigit(NatStr(n)[i]);
    assert forall i :: 0 <= i < |NatStr(count)| ==> IsDigit(NatStr(count)[i]);
  }

  lemma SegmentOneLine(before: seq<Segment>, s: Segment)
    requires WellFormedSegment(s)
    ensures AllOneLine(PrintSegment(before, s))
  {
    hide Range, OldCount, NewSide, OldLength, NewFile;
    if s.Hunk? {
      RangeOneLine(OldLength(before), OldCount(s.lines));
      RangeOneLine(|NewFile(before)|, |NewSide(s.lines)|);
      forall j | 0 <= j < |s.lines| ensures OneLine(PrintLine(s.lines[j])) {
        assert WellFormedLine(s.lines[j]);
      }
    }
  }

  lemma {:induction false} BodyOneLine(body: seq<Segment>)
    requires forall i :: 0 <= i < |body| ==> WellFormedSegment(body[i])
    ensures AllOneLine(PrintBody(body))
  {
    if body != [] {
      var n := |body| - 1;
      BodyOneLine(body[..n]);
      SegmentOneLine(body[..n], body[n]);
    }
  }

  lemma HeadersOneLine(f: FileDiff)
    requires WellFormed(f)
    ensures OneLine("--- " + f.oldName) && OneLine(NewHeader(f))
  {
  }

  lemma FileOneLine(f: FileDiff)
    requires WellFormed(f)
    ensures AllOneLine(PrintFile(f))
  {
    BodyOneLine(f.body);
    HeadersOneLine(f);
    hide PrintBody, NewHeader;
    PreambleNeutral(f);
    var headers := ["--- " + f.oldName, NewHeader(f)];
    assert AllOneLine(f.preamble) && AllOneLine(headers);
  }

  lemma {:induction false} FilesOneLine(files: seq<FileDiff>)
    requires AllWellFormed(files)
    ensures AllOneLine(PrintFiles(files))
  {
    hide WellFormed, PrintFile;
    if files != [] {
      var n := |files| - 1;
      FilesOneLine(files[..n]);
      FileOneLine(files[n]);
    }
  }

  /** Parsing a rendered diff is scanning its lines. */
  lemma ScanOfRendered(files: seq<FileDiff>)
    requires AllWellFormed(files)
    ensures Scan(START, Split(Render(files), '\n')) == Scan(START, PrintFiles(files))
  {
    FilesOneLine(files);
    SplitOfJoin(PrintFiles(files));
    ScanConcat(START, PrintFiles(files), [""]);
    ScanOne(Scan(START, PrintFiles(files)), "");
  }

  // ----- A lost line is never made up for -----

  predicate CountsAsAdded(raw: string) {
    Repeats(raw, '+', 1) && !Repeats(raw, '+', 3)
  }

  function PlusCount(lines: seq<string>): nat {
    if lines == [] then 0
    else PlusCount(lines[..|lines| - 1]) + if CountsAsAdded(lines[|lines| - 1]) then 1 else 0
  }

  lemma {:induction false} ScanAddsAtMost(c: Cursor, lines: seq<string>)
    ensures |Scan(c, lines).added| <= |c.added| + PlusCount(lines)
  {
    if lines != [] { ScanAddsAtMost(c, lines[..|lines| - 1]); }
  }

  lemma {:induction false} PlusCountConcat(a: seq<string>, b: seq<string>)
    ensures PlusCount(a + b) == PlusCount(a) + PlusCount(b)
  {
    hide CountsAsAdded;
    if b == [] {
      assert a + b == a;
    } else {
      PlusCountConcat(a, b[..|b| - 1]);
      assert (a + b)[..|a + b| - 1] == a + b[..|b| - 1];
    }
  }

  /** The added lines of a hunk whose text begins with `++`. */
  function Lost(lines: seq<DiffLine>): nat {
    if lines == [] then 0
    else
      var l := lines[|lines| - 1];
      Lost(lines[..|lines| - 1]) + if l.Added? && Repeats(l.text, '+', 2) then 1 else 0
  }

  function LostIn(body: seq<Segment>): nat {
    if body == [] then 0
    else
      var s := body[|body| - 1];
      LostIn(body[..|body| - 1]) + if s.Hunk? then Lost(s.lines) else 0
  }

  lemma PlusLine(l: DiffLine)
    ensures CountsAsAdded(PrintLine(l)) <==> l.Added? && !Repeats(l.text, '+', 2)
  {
    var raw := PrintLine(l);
    match l
    case Added(t) => PlusesMove(t); assert raw[0] == '+';
    case Context(t) => assert raw[0] == ' ';
    case Removed(t) => assert raw[0] == '-';
    case NoNewlineMark => assert raw[0] == '\\';
    case BlankContext =>
  }

  lemma {:induction false} HunkCount(path: string, first: int, lines: seq<DiffLine>)
    ensures |HunkAdds(path, first, lines)| == PlusCount(PrintLines(lines)) + Lost(lines)
    ensures CleanLines(lines) <==> Lost(lines) == 0
  {
    hide PrintLine, Repeats, CountsAsAdded;
    if lines != [] {
      var n := |lines| - 1;
      HunkCount(path, first, lines[..n]);
      assert PrintLines(lines)[..n] == PrintLines(lines[..n]);
      PlusLine(lines[n]);
      CleanLinesStep(lines);
    }
  }

  lemma CleanLinesStep(lines: seq<DiffLine>)
    requires lines != []
    ensures var n := |lines| - 1;
            CleanLines(lines) <==> CleanLines(lines[..n]) && (lines[n].Added? ==> !Repeats(lines[n].text, '+', 2))
  {
    hide Repeats;
    var n := |lines| - 1;
    if CleanLines(lines) {
      forall j | 0 <= j < n && lines[..n][j].Added? ensures !Repeats(lines[..n][j].text, '+', 2) {
        assert lines[..n][j] == lines[j];
      }
    }
  }

  lemma NoPlusCount(raw: string)
    requires raw == [] || raw[0] != '+' || Repeats(raw, '+', 3)
    ensures PlusCount([raw]) == 0
  {
    assert [raw][..0] == [];
  }

  lemma SegmentCount(path: string, before: seq<Segment>, s: Segment)
    requires s.Hunk?
    ensures |HunkAdds(path, |NewFile(before)| + 1, s.lines)| == PlusCount(PrintSegment(before, s)) + Lost(s.lines)
    ensures CleanLines(s.lines) <==> Lost(s.lines) == 0
  {
    hide PlusCount, CountsAsAdded, CleanLines;
    var header := HunkHeader(OldLength(before), |NewFile(before)|, s.lines, s.heading);
    PlusCountConcat([header], PrintLines(s.lines));
    assert header[0] == '@';
    NoPlusCount(header);
    HunkCount(path, |NewFile(before)| + 1, s.lines);
  }

  lemma AnySegmentCount(path: string, before: seq<Segment>, s: Segment)
    ensures |SegmentAdds(path, before, s)| == PlusCount(PrintSegment(before, s)) + if s.Hunk? then Lost(s.lines) else 0
    ensures s.Hunk? ==> (CleanLines(s.lines) <==> Lost(s.lines) == 0)
  {
    if s.Hunk? {
      SegmentCount(path, before, s);
    }
  }

  lemma {:induction false} BodyCount(path: string, body: seq<Segment>)
    ensures |BodyAdds(path, body)| == PlusCount(PrintBody(body)) + LostIn(body)
    ensures CleanBody(body) <==> LostIn(body) == 0
  {
    if body != [] {
      hide CleanLines, CountsAsAdded, PrintSegment, Lost, SegmentAdds, PlusCount, CleanBody;
      var n := |body| - 1;
      BodyCount(path, body[..n]);
      PlusCountConcat(PrintBody(body[..n]), PrintSegment(body[..n], body[n]));
      CleanBodyStep(body);
      AnySegmentCount(path, body[..n], body[n]);
    }
  }

  lemma CleanBodyStep(body: seq<Segment>)
    requires body != []
    ensures var n := |body| - 1;
            CleanBody(body) <==> CleanBody(body[..n]) && (body[n].Hunk? ==> CleanLines(body[n].lines))
  {
    hide CleanLines;
    var n := |body| - 1;
    if CleanBody(body) {
      forall j | 0 <= j < n && body[..n][j].Hunk? ensures CleanLines(body[..n][j].lines) {
        assert body[..n][j] == body[j];
      }
    }
  }

  lemma {:induction false} NeutralCount(lines: seq<string>)
    requires forall i :: 0 <= i < |lines| ==> Neutral(lines[i])
    ensures PlusCount(lines) == 0
  {
    if lines != [] { NeutralCount(lines[..|lines| - 1]); }
  }

  lemma HeaderCount(f: FileDiff)
    ensures PlusCount(["--- " + f.oldName, NewHeader(f)]) == 0
  {
    hide PlusCount;
    var minus, plus := "--- " + f.oldName, NewHeader(f);
    PlusCountConcat([minus], [plus]);
    assert [minus] + [plus] == [minus, plus];
    assert minus[0] == '-';
    assert plus[0] == '+' && plus[1] == '+' && plus[2] == '+';
    NoPlusCount(minus);
    NoPlusCount(plus);
  }

  lemma FileCount(f: FileDiff)
    requires WellFormed(f)
    ensures |FileAdds(f)| == PlusCount(PrintFile(f)) + LostIn(f.body)
    ensures CleanBody(f.body) <==> LostIn(f.body) == 0
  {
    hide PlusCount, LostIn, CleanBody, BodyAdds, PrintBody;
    var headers := ["--- " + f.oldName, NewHeader(f)];
    PlusCountConcat(f.preamble + headers, PrintBody(f.body));
    PlusCountConcat(f.preamble, headers);
    NeutralCount(f.preamble);
    HeaderCount(f);
    if f.target.Some? {
      BodyCount(f.target.value, f.body);
    } else {
      BodyCount("", f.body);
    }
  }

  /** The report is as long as it should be only if no line was lost. */
  lemma {:induction false} FilesCount(files: seq<FileDiff>)
    requires AllWellFormed(files)
    ensures |AllAdds(files)| >= PlusCount(PrintFiles(files))
    ensures |AllAdds(files)| == PlusCount(PrintFiles(files)) <==> Clean(files)
  {
    hide WellFormed, PrintFile, FileAdds, CleanBody, CountsAsAdded, LostIn;
    if files != [] {
      var n := |files| - 1;
      FilesCount(files[..n]);
      FileCount(files[n]);
      PlusCountConcat(PrintFiles(files[..n]), PrintFile(files[n]));
      CleanStep(files);
    }
  }

  lemma CleanStep(files: seq<FileDiff>)
    requires files != []
    ensures var n := |files| - 1; Clean(files) <==> Clean(files[..n]) && CleanBody(files[n].body)
  {
    hide CleanBody;
    var n := |files| - 1;
    if Clean(files) {
      forall i | 0 <= i < n ensures CleanBody(files[..n][i].body) { assert files[..n][i] == files[i]; }
    }
  }

  // ----- A blank context line puts the rest of its hunk out of step -----

  lemma TidyLinesStep(lines: seq<DiffLine>)
    requires lines != []
    ensures var n := |lines| - 1;
            TidyLines(lines) <==> TidyLines(lines[..n]) && (lines[n].Added? ==> NoBlank(lines[..n]))
  {
    var n := |lines| - 1;
    var init := lines[..n];
    forall i | 0 <= i < n ensures init[i] == lines[i] {}
    if TidyLines(init) && (lines[n].Added? ==> NoBlank(init)) {
      forall i, j | 0 <= i < j < |lines| && lines[j].Added? ensures !lines[i].BlankContext? {
        assert init[i] == lines[i];
        if j < n { assert init[j] == lines[j]; }
      }
    }
    if TidyLines(lines) {
      forall i, j | 0 <= i < j < n && init[j].Added? ensures !init[i].BlankContext? {
        assert init[i] == lines[i] && init[j] == lines[j];
      }
    }
  }

  predicate NoBlank(lines: seq<DiffLine>) {
    forall i :: 0 <= i < |lines| ==> !lines[i].BlankContext?
  }

  /** The counter is right until a blank context line, and too small from then on. */
  lemma {:induction false} CountedIff(lines: seq<DiffLine>)
    ensures Counted(lines) <= |NewSide(lines)|
    ensures Counted(lines) == |NewSide(lines)| <==> NoBlank(lines)
  {
    if lines != [] {
      var n := |lines| - 1;
      CountedIff(lines[..n]);
      assert lines == lines[..n] + [lines[n]];
    }
  }

  lemma {:induction false} HunkSeenIff(path: string, first: int, lines: seq<DiffLine>)
    ensures |HunkSeen(path, first, lines)| == |HunkAdds(path, first, lines)|
    ensures HunkSeen(path, first, lines) == HunkAdds(path, first, lines) <==> TidyLines(lines)
  {
    hide TidyLines, NewSide, Counted, NoBlank;
    if lines == [] {
      NothingTidy();
    } else {
      var n := |lines| - 1;
      var init, l := lines[..n], lines[n];
      HunkSeenIff(path, first, init);
      TidyLinesStep(lines);
      CountedIff(init);
      if l.Added? {
        PartsEqualIff(HunkSeen(path, first, init), HunkAdds(path, first, init),
                      [AddedLine(path, first + Counted(init), l.text)],
                      [AddedLine(path, first + |NewSide(init)|, l.text)]);
      } else {
        var seen, adds := HunkSeen(path, first, init), HunkAdds(path, first, init);
        assert seen + [] == seen && adds + [] == adds;
      }
    }
  }

  lemma NothingTidy()
    ensures TidyLines([])
  {
  }

  lemma PartsEqualIff(a: seq<AddedLine>, b: seq<AddedLine>, x: seq<AddedLine>, y: seq<AddedLine>)
    requires |a| == |b|
    ensures a + x == b + y <==> a == b && x == y
  {
    if a + x == b + y {
      assert a == (a + x)[..|a|] && b == (b + y)[..|b|];
      assert x == (a + x)[|a|..] && y == (b + y)[|b|..];
    }
  }

  lemma SegmentSeenIff(path: string, before: seq<Segment>, s: Segment)
    ensures |SegmentSeen(path, before, s)| == |SegmentAdds(path, before, s)|
    ensures SegmentSeen(path, before, s) == SegmentAdds(path, before, s) <==> (s.Hunk? ==> TidyLines(s.lines))
  {
    if s.Hunk? {
      HunkSeenIff(path, |NewFile(before)| + 1, s.lines);
    }
  }

  lemma {:induction false} BodySeenIff(path: string, body: seq<Segment>)
    ensures |BodySeen(path, body)| == |BodyAdds(path, body)|
    ensures BodySeen(path, body) == BodyAdds(path, body) <==> TidyBody(body)
  {
    if body != [] {
      hide TidyLines, SegmentSeen, SegmentAdds;
      var n := |body| - 1;
      var init := body[..n];
      BodySeenIff(path, init);
      SegmentSeenIff(path, init, body[n]);
      PartsEqualIff(BodySeen(path, init), BodyAdds(path, init), SegmentSeen(path, init, body[n]),
                    SegmentAdds(path, init, body[n]));
      assert forall i :: 0 <= i < n ==> init[i] == body[i];
      TidyBodyStep(body);
    }
  }

  lemma TidyBodyStep(body: seq<Segment>)
    requires body != []
    ensures var n := |body| - 1;
            TidyBody(body) <==> TidyBody(body[..n]) && (body[n].Hunk? ==> TidyLines(body[n].lines))
  {
    hide TidyLines;
    var n := |body| - 1;
    if TidyBody(body) {
      forall j | 0 <= j < n && body[..n][j].Hunk? ensures TidyLines(body[..n][j].lines) {
        assert body[..n][j] == body[j];
      }
    }
  }

  /** A body that adds nothing is tidy. */
  lemma NothingAddedIsTidy(path: string, body: seq<Segment>)
    requires BodyAdds(path, body) == []
    ensures TidyBody(body)
  {
    BodySeenIff(path, body);
    assert |BodySeen(path, body)| == 0;
  }

  lemma FileSeenIff(f: FileDiff)
    requires WellFormed(f)
    ensures |FileSeen(f)| == |FileAdds(f)|
    ensures FileSeen(f) == FileAdds(f) <==> TidyBody(f.body)
  {
    hide TidyBody, BodySeen, BodyAdds;
    if f.target.Some? {
      BodySeenIff(f.target.value, f.body);
    } else {
      NothingAddedIsTidy("", f.body);
    }
  }

  lemma {:induction false} FilesSeenIff(files: seq<FileDiff>)
    requires AllWellFormed(files)
    ensures |AllSeen(files)| == |AllAdds(files)|
    ensures AllSeen(files) == AllAdds(files) <==> Tidy(files)
  {
    hide WellFormed, FileSeen, FileAdds, TidyBody;
    if files != [] {
      var n := |files| - 1;
      FilesSeenIff(files[..n]);
      FileSeenIff(files[n]);
      PartsEqualIff(AllSeen(files[..n]), AllAdds(files[..n]), FileSeen(files[n]), FileAdds(files[n]));
      TidyStep(files);
    }
  }

  lemma TidyStep(files: seq<FileDiff>)
    requires files != []
    ensures var n := |files| - 1; Tidy(files) <==> Tidy(files[..n]) && TidyBody(files[n].body)
  {
    hide TidyBody;
    var n := |files| - 1;
    if Tidy(files) {
      forall i | 0 <= i < n ensures TidyBody(files[..n][i].body) { assert files[..n][i] == files[i]; }
    }
  }

  // ----- Main results -----

  /** Parsing a rendered diff reports exactly its added lines, if and only if none of them begins with `++` and none
      stands behind a blank context line of its hunk. */
  lemma ParseInvertsRender(files: seq<FileDiff>)
    requires AllWellFormed(files)
    ensures Scan(START, Split(Render(files), '\n')).added == AllAdds(files) <==> Clean(files) && Tidy(files)
  {
    hide AllWellFormed, Clean, Tidy, Render;
    ScanOfRendered(files);
    if Clean(files) {
      ScanFiles(START, files);
      FilesSeenIff(files);
    }
    ScanAddsAtMost(START, PrintFiles(files));
    FilesCount(files);
  }

  /** Without lines beginning with `++`, every added line is reported with its text, at its number less the blank
      context lines before it in its hunk. */
  lemma ReportOfRendered(files: seq<FileDiff>)
    requires AllWellFormed(files) && Clean(files)
    ensures Scan(START, Split(Render(files), '\n')).added == AllSeen(files)
  {
    hide AllWellFormed, Clean, Render;
    ScanOfRendered(files);
    ScanFiles(START, files);
  }

  /** The diff that is printed with a blank context line before an added one: the number is one too small. */
  lemma BlankContextShifts(path: string, first: int, text: string)
    ensures HunkSeen(path, first, [BlankContext, Added(text)]) == [AddedLine(path, first, text)]
    ensures HunkAdds(path, first, [BlankContext, Added(text)]) == [AddedLine(path, first + 1, text)]
  {
    var lines := [BlankContext, Added(text)];
    var init := lines[..1];
    assert init == [BlankContext] && init[..0] == [];
    assert NewSide(init) == [] + [""] && Counted(init) == 0;
    assert HunkSeen(path, first, init) == HunkSeen(path, first, init[..0]) + [];
    assert HunkAdds(path, first, init) == HunkAdds(path, first, init[..0]) + [];
    assert HunkSeen(path, first, lines) == HunkSeen(path, first, init) + [AddedLine(path, first + Counted(init), text)];
    assert HunkAdds(path, first, lines) == HunkAdds(path, first, init)
              + [AddedLine(path, first + |NewSide(init)|, text)];
  }

  /** The line of the new file that an entry names holds its text. */
  ghost predicate Located(e: AddedLine, path: string, file: seq<string>) {
    e.path == path && 1 <= e.line <= |file| && file[e.line - 1] == e.text
  }

  lemma {:induction false} HunkAddsLocated(path: string, before: seq<string>, lines: seq<DiffLine>)
    ensures forall e :: e in HunkAdds(path, |before| + 1, lines) ==> Located(e, path, before + NewSide(lines))
  {
    if lines != [] {
      var l, init := lines[|lines| - 1], lines[..|lines| - 1];
      var adds := HunkAdds(path, |before| + 1, init);
      HunkAddsLocated(path, before, init);
      var last := AddedLine(path, |before| + 1 + |NewSide(init)|, if l.Added? then l.text else "");
      assert HunkAdds(path, |before| + 1, lines) == adds + if l.Added? then [last] else [];
      forall e | e in HunkAdds(path, |before| + 1, lines) ensures Located(e, path, before + NewSide(lines)) {
        assert e in adds || (l.Added? && e == last);
        LocatedAppend(e, path, before + NewSide(init), if OnNewSide(l) then [Shown(l)] else []);
        assert before + NewSide(init) + (if OnNewSide(l) then [Shown(l)] else []) == before + NewSide(lines);
      }
    }
  }

  lemma LocatedAppend(e: AddedLine, path: string, file: seq<string>, more: seq<string>)
    ensures Located(e, path, file) ==> Located(e, path, file + more)
    ensures |more| == 1 && e == AddedLine(path, |file| + 1, more[0]) ==> Located(e, path, file + more)
  {
  }

  lemma {:induction false} BodyAddsLocated(path: string, body: seq<Segment>)
    ensures forall e :: e in BodyAdds(path, body) ==> Located(e, path, NewFile(body))
  {
    if body != [] {
      var n := |body| - 1;
      BodyAddsLocated(path, body[..n]);
      if body[n].Hunk? {
        HunkAddsLocated(path, NewFile(body[..n]), body[n].lines);
      }
    }
  }

  /** Every reported line stands in the new file of its path, at its number, with its text. */
  lemma {:induction false} ReportsAreLocated(files: seq<FileDiff>)
    ensures forall e :: e in AllAdds(files) ==>
              exists i :: 0 <= i < |files| && files[i].target == Some(e.path)
                          && Located(e, e.path, NewFile(files[i].body))
  {
    hide Located;
    if files != [] {
      var n := |files| - 1;
      ReportsAreLocated(files[..n]);
      forall e | e in AllAdds(files)
        ensures exists i :: 0 <= i < |files| && files[i].target == Some(e.path)
                            && Located(e, e.path, NewFile(files[i].body))
      {
        if e in AllAdds(files[..n]) {
          var i :| 0 <= i < n && files[..n][i].target == Some(e.path)
                      && Located(e, e.path, NewFile(files[..n][i].body));
          assert files[i] == files[..n][i];
        } else {
          FileAddLocated(files[n], e);
        }
      }
    }
  }

  lemma FileAddLocated(f: FileDiff, e: AddedLine)
    requires e in FileAdds(f)
    ensures f.target == Some(e.path) && Located(e, e.path, NewFile(f.body))
  {
    BodyAddsLocated(f.target.value, f.body);
  }
}
