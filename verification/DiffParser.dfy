/** The unified-diff parser of scripts/regression_diff.py, against a printer of unified diffs. */
module DiffParser {
  import opened Common
  import opened Decimal
  import opened Text

  /** An added line as reported: file, line number in the new file, text. */
  datatype AddedLine = AddedLine(path: string, line: int, text: string)

  // ----- The parser -----

  /** The file a `+++` header names: nothing for `/dev/null`, otherwise without one leading `b/`. */
  function TargetPath(raw: string): string
    requires |raw| >= 4
  {
    var target := Strip(raw[4..]);
    if target == "/dev/null" then "" else if "b/" <= target then target[2..] else target
  }

  /** `re.search(r"\+(\d+)", raw)`: the first number that follows a plus sign. */
  function PlusNumber(s: string): Option<nat> {
    if s == [] then None
    else if s[0] == '+' && Span(s[1..]) > 0 then Some(NatVal(s[1..1 + Span(s[1..])]))
    else PlusNumber(s[1..])
  }

  datatype Cursor = Cursor(path: string, line: int, added: seq<AddedLine>)

  const START := Cursor("", 0, [])

  /** `raw` starts with `n` times the character `c`. */
  predicate Repeats(raw: string, c: char, n: nat) {
    |raw| >= n && forall i :: 0 <= i < n ==> raw[i] == c
  }

  predicate IsFileHeader(raw: string) {
    |raw| >= 4 && Repeats(raw, '+', 3) && raw[3] == ' '
  }

  function Step(c: Cursor, raw: string): Cursor {
    if IsFileHeader(raw) then c.(path := TargetPath(raw))
    else if Repeats(raw, '@', 2) then c.(line := if PlusNumber(raw).Some? then PlusNumber(raw).value else 0)
    else if Repeats(raw, '+', 1) && !Repeats(raw, '+', 3) then
      Cursor(c.path, c.line + 1, if c.path != "" then c.added + [AddedLine(c.path, c.line, raw[1..])] else c.added)
    else if Repeats(raw, '-', 1) && !Repeats(raw, '-', 3) then c
    else if Repeats(raw, ' ', 1) then c.(line := c.line + 1)
    else c
  }

  function Scan(c: Cursor, lines: seq<string>): Cursor {
    if lines == [] then c else Step(Scan(c, lines[..|lines| - 1]), lines[|lines| - 1])
  }

  /** `parse_diff`. */
  method ParseDiff(diff: string) returns (added: seq<AddedLine>)
    ensures added == Scan(START, Split(diff, '\n')).added
  {
    var lines := Split(diff, '\n');
    var path, line := "", 0;
    added := [];
    for i := 0 to |lines|
      invariant Cursor(path, line, added) == Scan(START, lines[..i])
    {
      var raw := lines[i];
      assert lines[..i + 1][..i] == lines[..i];
      if IsFileHeader(raw) {
        path := TargetPath(raw);
      } else if Repeats(raw, '@', 2) {
        var m := PlusNumber(raw);
        line := if m.Some? then m.value else 0;
      } else if Repeats(raw, '+', 1) && !Repeats(raw, '+', 3) {
        if path != "" {
          added := added + [AddedLine(path, line, raw[1..])];
        }
        line := line + 1;
      } else if Repeats(raw, '-', 1) && !Repeats(raw, '-', 3) {
      } else if Repeats(raw, ' ', 1) {
        line := line + 1;
      }
    }
    assert lines[..|lines|] == lines;
  }

  // ----- The printer -----

  /** A line of a hunk. An empty unaffected line may be written with its space or, as `BlankContext`, without it. */
  datatype DiffLine = Context(text: string) | BlankContext | Added(text: string) | Removed(text: string) | NoNewlineMark

  /** A stretch of a file: lines the diff leaves out, or a hunk. */
  datatype Segment = Unchanged(kept: seq<string>) | Hunk(heading: string, lines: seq<DiffLine>)

  /** One file of a diff: extended header lines, the old-file header, the new file (none when it is deleted),
      white space after its name, and the whole body in order. */
  datatype FileDiff = FileDiff(
    preamble: seq<string>, oldName: string, target: Option<string>, trailer: string, body: seq<Segment>)

  function OnNewSide(l: DiffLine): bool {
    l.Context? || l.BlankContext? || l.Added?
  }

  /** The file's line that a line of a hunk shows. */
  function Shown(l: DiffLine): string {
    match l
    case Context(t) => t
    case Added(t) => t
    case Removed(t) => t
    case _ => ""
  }

  function OnOldSide(l: DiffLine): bool {
    l.Context? || l.BlankContext? || l.Removed?
  }

  function NewSide(lines: seq<DiffLine>): seq<string> {
    if lines == [] then []
    else NewSide(lines[..|lines| - 1]) + if OnNewSide(lines[|lines| - 1]) then [Shown(lines[|lines| - 1])] else []
  }

  function OldCount(lines: seq<DiffLine>): nat {
    if lines == [] then 0
    else OldCount(lines[..|lines| - 1]) + if OnOldSide(lines[|lines| - 1]) then 1 else 0
  }

  function NewText(s: Segment): seq<string> {
    match s
    case Unchanged(kept) => kept
    case Hunk(_, lines) => NewSide(lines)
  }

  /** The new file. */
  function NewFile(body: seq<Segment>): seq<string> {
    if body == [] then [] else NewFile(body[..|body| - 1]) + NewText(body[|body| - 1])
  }

  function OldLength(body: seq<Segment>): nat {
    if body == [] then 0
    else
      OldLength(body[..|body| - 1]) +
      match body[|body| - 1]
      case Unchanged(kept) => |kept|
      case Hunk(_, lines) => OldCount(lines)
  }

  /** A range of a hunk header: an empty range is placed after the line before it, and a count of 1 is left out. */
  function Range(before: nat, count: nat): string {
    NatStr(if count == 0 then before else before + 1) + if count == 1 then "" else "," + NatStr(count)
  }

  function HunkHeader(oldBefore: nat, newBefore: nat, lines: seq<DiffLine>, heading: string): string {
    HeaderStart(oldBefore, OldCount(lines)) + "+" + Range(newBefore, |NewSide(lines)|) + " @@" + heading
  }

  function HeaderStart(oldBefore: nat, oldCount: nat): (r: string)
    ensures |r| >= 2 && r[0] == '@' && r[1] == '@'
  {
    "@@ -" + Range(oldBefore, oldCount) + " "
  }

  function PrintLine(l: DiffLine): string {
    match l
    case Context(t) => " " + t
    case BlankContext => ""
    case Added(t) => "+" + t
    case Removed(t) => "-" + t
    case NoNewlineMark => "\\ No newline at end of file"
  }

  function PrintLines(lines: seq<DiffLine>): (r: seq<string>)
    ensures |r| == |lines| && forall i :: 0 <= i < |r| ==> r[i] == PrintLine(lines[i])
  {
    seq(|lines|, i requires 0 <= i < |lines| => PrintLine(lines[i]))
  }

  function PrintSegment(before: seq<Segment>, s: Segment): seq<string> {
    match s
    case Unchanged(_) => []
    case Hunk(heading, lines) =>
      [HunkHeader(OldLength(before), |NewFile(before)|, lines, heading)] + PrintLines(lines)
  }

  function PrintBody(body: seq<Segment>): seq<string> {
    if body == [] then []
    else PrintBody(body[..|body| - 1]) + PrintSegment(body[..|body| - 1], body[|body| - 1])
  }

  function NewHeader(f: FileDiff): string {
    "+++ " + (if f.target.Some? then "b/" + f.target.value else "/dev/null") + f.trailer
  }

  function PrintFile(f: FileDiff): seq<string> {
    f.preamble + ["--- " + f.oldName, NewHeader(f)] + PrintBody(f.body)
  }

  function PrintFiles(files: seq<FileDiff>): seq<string> {
    if files == [] then [] else PrintFiles(files[..|files| - 1]) + PrintFile(files[|files| - 1])
  }

  function JoinLines(lines: seq<string>): string {
    if lines == [] then "" else lines[0] + ['\n'] + JoinLines(lines[1..])
  }

  /** The text of a diff over several files. */
  function Render(files: seq<FileDiff>): string {
    JoinLines(PrintFiles(files))
  }

  // ----- What the parser should report -----

  /** The added lines of a hunk whose first new line has the number `first`. */
  function HunkAdds(path: string, first: int, lines: seq<DiffLine>): seq<AddedLine> {
    if lines == [] then []
    else
      var init, l := lines[..|lines| - 1], lines[|lines| - 1];
      HunkAdds(path, first, init) + if l.Added? then [AddedLine(path, first + |NewSide(init)|, l.text)] else []
  }

  function SegmentAdds(path: string, before: seq<Segment>, s: Segment): seq<AddedLine> {
    if s.Hunk? then HunkAdds(path, |NewFile(before)| + 1, s.lines) else []
  }

  function BodyAdds(path: string, body: seq<Segment>): seq<AddedLine> {
    if body == [] then []
    else BodyAdds(path, body[..|body| - 1]) + SegmentAdds(path, body[..|body| - 1], body[|body| - 1])
  }

  function FileAdds(f: FileDiff): seq<AddedLine> {
    if f.target.Some? then BodyAdds(f.target.value, f.body) else []
  }

  /** All added lines of the diff. */
  function AllAdds(files: seq<FileDiff>): seq<AddedLine> {
    if files == [] then [] else AllAdds(files[..|files| - 1]) + FileAdds(files[|files| - 1])
  }

  // ----- Which diffs a printer produces -----

  predicate OneLine(s: string) {
    '\n' !in s
  }

  /** An extended header line, such as `diff --git` or `index`. */
  predicate Neutral(s: string) {
    OneLine(s) && (s == [] || (s[0] != '+' && s[0] != '-' && s[0] != ' ' && s[0] != '@'))
  }

  predicate WellFormedLine(l: DiffLine) {
    OneLine(Shown(l))
  }

  predicate WellFormedSegment(s: Segment) {
    s.Hunk? ==> OneLine(s.heading) && forall j :: 0 <= j < |s.lines| ==> WellFormedLine(s.lines[j])
  }

  /** Texts are single lines, the path neither is empty nor ends in white space, and a deleted file gains no line. */
  predicate WellFormed(f: FileDiff) {
    && (forall i :: 0 <= i < |f.preamble| ==> Neutral(f.preamble[i]))
    && OneLine(f.oldName) && OneLine(f.trailer) && (forall c :: c in f.trailer ==> IsSpace(c))
    && (forall i :: 0 <= i < |f.body| ==> WellFormedSegment(f.body[i]))
    && match f.target
       case None => BodyAdds("", f.body) == []
       case Some(p) => p != "" && OneLine(p) && !IsSpace(p[|p| - 1])
  }

  ghost predicate AllWellFormed(files: seq<FileDiff>) {
    forall i :: 0 <= i < |files| ==> WellFormed(files[i])
  }

  /** No added text begins with `++`, which would make its line look like a file header. */
  predicate CleanLines(lines: seq<DiffLine>) {
    forall j :: 0 <= j < |lines| && lines[j].Added? ==> !Repeats(lines[j].text, '+', 2)
  }

  predicate CleanBody(body: seq<Segment>) {
    forall i :: 0 <= i < |body| && body[i].Hunk? ==> CleanLines(body[i].lines)
  }

  ghost predicate Clean(files: seq<FileDiff>) {
    forall i :: 0 <= i < |files| ==> CleanBody(files[i].body)
  }

  /** In no hunk does a blank context line stand before an added line. */
  predicate TidyLines(lines: seq<DiffLine>) {
    forall i, j :: 0 <= i < j < |lines| && lines[j].Added? ==> !lines[i].BlankContext?
  }

  predicate TidyBody(body: seq<Segment>) {
    forall i :: 0 <= i < |body| && body[i].Hunk? ==> TidyLines(body[i].lines)
  }

  ghost predicate Tidy(files: seq<FileDiff>) {
    forall i :: 0 <= i < |files| ==> TidyBody(files[i].body)
  }

  // ----- What the parser does report -----

  /** The lines the parser counts: a blank context line matches none of its cases. */
  function Counted(lines: seq<DiffLine>): nat {
    if lines == [] then 0
    else Counted(lines[..|lines| - 1]) + if lines[|lines| - 1].Context? || lines[|lines| - 1].Added? then 1 else 0
  }

  /** The added lines of a hunk, at the numbers the parser gives them. */
  function HunkSeen(path: string, first: int, lines: seq<DiffLine>): seq<AddedLine> {
    if lines == [] then []
    else
      var init, l := lines[..|lines| - 1], lines[|lines| - 1];
      HunkSeen(path, first, init) + if l.Added? then [AddedLine(path, first + Counted(init), l.text)] else []
  }

  function SegmentSeen(path: string, before: seq<Segment>, s: Segment): seq<AddedLine> {
    if s.Hunk? then HunkSeen(path, |NewFile(before)| + 1, s.lines) else []
  }

  function BodySeen(path: string, body: seq<Segment>): seq<AddedLine> {
    if body == [] then []
    else BodySeen(path, body[..|body| - 1]) + SegmentSeen(path, body[..|body| - 1], body[|body| - 1])
  }

  function FileSeen(f: FileDiff): seq<AddedLine> {
    if f.target.Some? then BodySeen(f.target.value, f.body) else []
  }

  function AllSeen(files: seq<FileDiff>): seq<AddedLine> {
    if files == [] then [] else AllSeen(files[..|files| - 1]) + FileSeen(files[|files| - 1])
  }
}
