/** The snapshot-record builder of utils/create_code_snapshot.py.

    Given the changed file, its old and new content and an output sink, the
    builder decides whether the change is recorded at all (no file, a path
    outside the root, an ignored path, a binary suffix), formats a record (a three-piece header, then an
    optional "Changes:" block with one rendered piece per diff line after
    the unified diff's two file-header lines) and appends the pieces, joined
    with newlines, to the snapshot file.

    The unified diff (difflib over the contents' lines) and the gitignore
    matcher are foreign code: they come in as a `Differ` and a `Matcher`.
 */
module CodeSnapshot {

  datatype Option<T> = None | Some(value: T)

  /** The changed path once resolved: its absolute form, its form relative to
      the watch root (None when it is not under the root, where `relative_to`
      raises ValueError) and its final suffix, as `Path.suffix` gives it. */
  datatype ChangedFile = ChangedFile(absPath: string, relPath: Option<string>, suffix: string)

  /** The compiled ignore rules: true when a relative path is ignored. */
  type Matcher = string -> bool

  /** `list(difflib.unified_diff(old.splitlines(), new.splitlines(), lineterm=''))`. */
  type Differ = (string, string) -> seq<string>

  /** The exceptions the builder lets escape. The event handler catches
      `PermissionDenied` and drops the event; `NotUnderRoot` escapes the
      handler as well. */
  datatype Error =
    | NotUnderRoot       // ValueError from relative_to: escapes the handler
    | PermissionDenied   // PermissionError from opening the snapshot file: caught by the handler

  /** What one call of the builder did. */
  datatype Outcome = NoFile | Ignored | Binary | Written | Failed(error: Error)

  const BinarySuffixes: set<string> := {".exe", ".dll", ".pyc", ".pyo"}

  const ChangesMarker: string := "\nChanges:\n"

  // ---------------------------------------------------------------------------
  // Strings

  function Repeat(c: char, n: nat): (r: string)
    ensures |r| == n
    ensures forall i :: 0 <= i < n ==> r[i] == c
  {
    if n == 0 then [] else [c] + Repeat(c, n - 1)
  }

  /** The 80-character separator line of the record header. */
  const Rule: string := Repeat('=', 80)

  predicate StartsWith(s: string, prefix: string) {
    |prefix| <= |s| && s[..|prefix|] == prefix
  }

  /** Python's `s[1:]`: empty for the empty string. */
  function DropFirst(s: string): string {
    if s == [] then [] else s[1..]
  }

  /** `str.lower` on the ASCII letters. */
  function LowerChar(c: char): char {
    if 'A' <= c <= 'Z' then (c as int + 32) as char else c
  }

  function Lower(s: string): string {
    seq(|s|, i requires 0 <= i < |s| => LowerChar(s[i]))
  }

  predicate EqualIgnoringCase(s: string, t: string) {
    |s| == |t| && forall i :: 0 <= i < |s| ==> LowerChar(s[i]) == LowerChar(t[i])
  }

  function TotalLength(pieces: seq<string>): nat {
    if pieces == [] then 0 else |pieces[0]| + TotalLength(pieces[1..])
  }

  /** `'\n'.join(pieces)`: the pieces in order with one newline between each
      two, so its length is theirs plus one per gap. */
  function Join(pieces: seq<string>): (r: string)
    ensures pieces != [] ==> |r| == TotalLength(pieces) + |pieces| - 1
  {
    if |pieces| == 0 then ""
    else if |pieces| == 1 then pieces[0]
    else pieces[0] + "\n" + Join(pieces[1..])
  }

  /** Joining two non-empty lists of pieces puts one newline between their joins. */
  lemma {:induction false} JoinConcat(a: seq<string>, b: seq<string>)
    requires a != [] && b != []
    ensures Join(a + b) == Join(a) + "\n" + Join(b)
  {
    if |a| == 1 {
      assert a + b == [a[0]] + b;
      assert (a + b)[1..] == b;
    } else {
      assert (a + b)[1..] == a[1..] + b;
      JoinConcat(a[1..], b);
    }
  }

  // ---------------------------------------------------------------------------
  // Skip conditions

  /** The binary-suffix test: the lower-cased suffix is one of the four. */
  function IsBinarySuffix(suffix: string): (r: bool)
    ensures r ==> |suffix| == 4 && suffix[0] == '.'
    ensures r ==> LowerChar(suffix[1]) in {'e', 'd', 'p'}
  {
    var l := Lower(suffix);
    assert l in BinarySuffixes ==> l == ".exe" || l == ".dll" || l == ".pyc" || l == ".pyo";
    assert |l| == |suffix| && (|l| > 1 ==> l[0] == LowerChar(suffix[0]) && l[1] == LowerChar(suffix[1]));
    l in BinarySuffixes
  }

  /** A suffix is binary exactly when it spells one of the four suffixes in
      any mix of upper and lower case. */
  lemma BinarySuffixIgnoresCase(suffix: string)
    ensures IsBinarySuffix(suffix) <==>
            exists b :: b in BinarySuffixes && EqualIgnoringCase(suffix, b)
  {
    forall b | b in BinarySuffixes ensures Lower(b) == b {
      assert forall i :: 0 <= i < |b| ==> !('A' <= b[i] <= 'Z');
    }
    if IsBinarySuffix(suffix) {
      var b := Lower(suffix);
      assert EqualIgnoringCase(suffix, b) by {
        forall i | 0 <= i < |suffix| ensures LowerChar(suffix[i]) == LowerChar(b[i]) {
          assert b[i] == LowerChar(suffix[i]);
        }
      }
    }
    if b :| b in BinarySuffixes && EqualIgnoringCase(suffix, b) {
      assert Lower(suffix) == Lower(b);
    }
  }

  lemma BinarySuffixExamples()
    ensures IsBinarySuffix(".exe") && IsBinarySuffix(".EXE") && IsBinarySuffix(".Pyc")
    ensures !IsBinarySuffix(".py") && !IsBinarySuffix("") && !IsBinarySuffix("exe")
  {
    assert Lower(".exe") == ".exe";
    assert Lower(".EXE") == ".exe";
    assert Lower(".Pyc") == ".pyc";
    assert Lower(".py") == ".py";
    assert Lower("exe") == "exe";
  }

  /** The skip decision, in the order the builder tests: no file, a path
      outside the root (ValueError), an ignored path, a binary suffix.
      `Written` means the record is to be written. */
  function Decide(changed: Option<ChangedFile>, ignore: Option<Matcher>): (r: Outcome)
    ensures r in {NoFile, Failed(NotUnderRoot), Ignored, Binary, Written}
    ensures r == NoFile <==> changed.None?
    ensures r == Failed(NotUnderRoot) <==> changed.Some? && changed.value.relPath.None?
    ensures r == Ignored ==> ignore.Some? && ignore.value(changed.value.relPath.value)
    ensures r == Binary ==> IsBinarySuffix(changed.value.suffix)
  {
    if changed.None? then NoFile
    else if changed.value.relPath.None? then Failed(NotUnderRoot)
    else if ignore.Some? && ignore.value(changed.value.relPath.value) then Ignored
    else if IsBinarySuffix(changed.value.suffix) then Binary
    else Written
  }

  /** Only a present file under the root, not ignored and not binary, is
      recorded; what decides is the path alone, never the content. */
  lemma DecideWritesOnlyAcceptedFiles(changed: Option<ChangedFile>, ignore: Option<Matcher>)
    ensures Decide(changed, ignore) == Written <==>
            changed.Some? && changed.value.relPath.Some? &&
            (ignore.None? || !ignore.value(changed.value.relPath.value)) &&
            !exists b :: b in BinarySuffixes && EqualIgnoringCase(changed.value.suffix, b)
  {
    if changed.Some? {
      BinarySuffixIgnoresCase(changed.value.suffix);
    }
  }

  // ---------------------------------------------------------------------------
  // Per-line rendering

  /** How the builder's if/elif chain classifies a diff line. */
  datatype LineKind = Added | Removed | HunkHeader | Context

  function KindOf(line: string): (r: LineKind)
    ensures r == Added <==> |line| >= 1 && line[0] == '+'
    ensures r == Removed <==> |line| >= 1 && line[0] == '-'
    ensures r == HunkHeader <==> |line| >= 2 && line[0] == '@' && line[1] == '@'
  {
    if StartsWith(line, "+") then Added
    else if StartsWith(line, "-") then Removed
    else if StartsWith(line, "@@") then HunkHeader
    else Context
  }

  /** The one-character marker a body line carries. */
  function Marker(kind: LineKind): char
    requires kind != HunkHeader
  {
    match kind
    case Added => '+'
    case Removed => '-'
    case Context => ' '
  }

  /** A hunk header is framed by newlines; every other line becomes its
      kind's marker followed by the line's text after its first character. */
  function RenderLine(line: string): (r: string)
    ensures KindOf(line) == HunkHeader ==> r == "\n" + line + "\n"
    ensures KindOf(line) != HunkHeader ==>
              |r| >= 1 && r[0] == Marker(KindOf(line)) && r[1..] == DropFirst(line)
  {
    match KindOf(line)
    case Added => line
    case Removed => line
    case HunkHeader => "\n" + line + "\n"
    case Context => " " + DropFirst(line)
  }

  /** Rendering keeps the kind of a body line and is a no-op on a body line
      already rendered: a line starting with a space is emitted unchanged. */
  lemma RenderBodyLineStable(line: string)
    requires KindOf(line) != HunkHeader
    ensures KindOf(RenderLine(line)) == KindOf(line)
    ensures RenderLine(RenderLine(line)) == RenderLine(line)
    ensures StartsWith(line, " ") ==> RenderLine(line) == line
  {
  }

  function RenderLines(lines: seq<string>): (r: seq<string>)
    ensures |r| == |lines|
    ensures forall i :: 0 <= i < |lines| ==> r[i] == RenderLine(lines[i])
  {
    if lines == [] then [] else [RenderLine(lines[0])] + RenderLines(lines[1..])
  }

  lemma {:induction false} RenderLinesSnoc(lines: seq<string>, i: nat)
    requires i < |lines|
    ensures RenderLines(lines[..i + 1]) == RenderLines(lines[..i]) + [RenderLine(lines[i])]
  {
    var a := RenderLines(lines[..i + 1]);
    var b := RenderLines(lines[..i]) + [RenderLine(lines[i])];
    assert |a| == |b|;
    forall k | 0 <= k < |a| ensures a[k] == b[k] {
      assert lines[..i + 1][k] == lines[k];
      if k < i {
        assert lines[..i][k] == lines[k];
      }
    }
  }

  // ---------------------------------------------------------------------------
  // The record

  /** `diff[2:]`: the diff without its two file-header lines. */
  function DiffBody(diff: seq<string>): seq<string> {
    if |diff| <= 2 then [] else diff[2..]
  }

  function Header(rel: string): seq<string> {
    ["\n" + Rule + "\n", "File: " + rel + "\n", Rule + "\n"]
  }

  /** The pieces of the record for a file and its diff. */
  function Record(rel: string, diff: seq<string>): (r: seq<string>)
    ensures |r| >= 3 && r[..3] == Header(rel)
    ensures diff == [] ==> r == Header(rel)
    ensures diff != [] ==>
              |r| == 4 + (if |diff| < 2 then 0 else |diff| - 2) && r[3] == ChangesMarker &&
              forall k :: 2 <= k < |diff| ==> r[k + 2] == RenderLine(diff[k])
  {
    Header(rel) + (if diff == [] then [] else [ChangesMarker] + RenderLines(DiffBody(diff)))
  }

  /** The record depends on the diff only through its emptiness and its
      lines after the first two: the "---"/"+++" lines never reach the sink. */
  lemma RecordIgnoresFileHeaders(rel: string, d1: seq<string>, d2: seq<string>)
    requires |d1| >= 2 && |d2| >= 2 && d1[2..] == d2[2..]
    ensures Record(rel, d1) == Record(rel, d2)
  {
  }

  /** The text appended for a record. */
  function SnapshotText(rel: string, diff: seq<string>): string {
    Join(Record(rel, diff))
  }

  /** The header as text: a blank line, the rule, a blank line, the file
      line, a blank line, the rule (each piece ends in a newline and the
      join adds one more between pieces). */
  function HeaderText(rel: string): string {
    "\n" + Rule + "\n" + "\n" + "File: " + rel + "\n" + "\n" + Rule + "\n"
  }

  lemma HeaderJoin(rel: string)
    ensures Join(Header(rel)) == HeaderText(rel)
  {
    var h := Header(rel);
    var t := h[1..];
    assert t[1..] == [h[2]];
    assert Join(t) == h[1] + "\n" + h[2];
    assert Join(h) == h[0] + "\n" + (h[1] + "\n" + h[2]);
  }

  lemma SnapshotTextLayout(rel: string, diff: seq<string>)
    ensures diff == [] ==> SnapshotText(rel, diff) == HeaderText(rel)
    ensures diff != [] && DiffBody(diff) == [] ==>
              SnapshotText(rel, diff) == HeaderText(rel) + "\n" + ChangesMarker
    ensures DiffBody(diff) != [] ==>
              SnapshotText(rel, diff) ==
              HeaderText(rel) + "\n" + ChangesMarker + "\n" + Join(RenderLines(DiffBody(diff)))
    ensures |SnapshotText(rel, diff)| >= |HeaderText(rel)| &&
            SnapshotText(rel, diff)[..|HeaderText(rel)|] == HeaderText(rel)
  {
    var h := Header(rel);
    HeaderJoin(rel);
    if diff != [] {
      var body := RenderLines(DiffBody(diff));
      var tail := [ChangesMarker] + body;
      assert Record(rel, diff) == h + tail;
      JoinConcat(h, tail);
      if body != [] {
        assert tail == [ChangesMarker] + body;
        JoinConcat([ChangesMarker], body);
      } else {
        assert tail == [ChangesMarker];
      }
    }
  }

  /** The builder's loop over `diff[2:]`: its if/elif chain renders each
      line, in order. */
  method RenderBody(body: seq<string>) returns (rendered: seq<string>)
    ensures rendered == RenderLines(body)
  {
    rendered := [];
    var i := 0;
    while i < |body|
      invariant 0 <= i <= |body|
      invariant rendered == RenderLines(body[..i])
    {
      var line := body[i];
      var piece;
      if StartsWith(line, "+") {
        piece := line;
      } else if StartsWith(line, "-") {
        piece := line;
      } else if StartsWith(line, "@@") {
        piece := "\n" + line + "\n";
      } else {
        piece := " " + DropFirst(line);
      }
      RenderLinesSnoc(body, i);
      rendered := rendered + [piece];
      i := i + 1;
    }
    assert body[..i] == body;
  }

  /** The builder's record: the header, then, for a non-empty diff, the
      "Changes:" marker and one rendered piece per line of `diff[2:]`. */
  method BuildRecord(rel: string, diff: seq<string>) returns (pieces: seq<string>)
    ensures pieces == Record(rel, diff)
  {
    pieces := [];
    pieces := pieces + ["\n" + Rule + "\n"];
    pieces := pieces + ["File: " + rel + "\n"];
    pieces := pieces + [Rule + "\n"];
    if |diff| > 0 {
      pieces := pieces + [ChangesMarker];
      var rendered := RenderBody(DiffBody(diff));
      pieces := pieces + rendered;
    }
  }

  // ---------------------------------------------------------------------------
  // The sink and the builder

  /** The snapshot file, `output_file` of the builder (by default
      full_code_snapshot.txt in the working directory): whether it exists,
      its text, and whether opening it for writing succeeds (false models a
      PermissionError from `open`). */
  class SnapshotFile {
    var present: bool
    var text: string
    var writable: bool

    ghost predicate Valid()
      reads this
    {
      !present ==> text == ""
    }

    constructor (present: bool, text: string, writable: bool)
      requires !present ==> text == ""
      ensures Valid()
      ensures this.present == present && this.text == text && this.writable == writable
    {
      this.present := present;
      this.text := text;
      this.writable := writable;
    }

    /** Opens the file in mode 'a' when it exists and 'w' otherwise, and
        writes `s`: earlier text is never altered. */
    method Append(s: string) returns (ok: bool)
      requires Valid()
      modifies this
      ensures Valid()
      ensures ok == old(writable) && writable == old(writable)
      ensures ok ==> present && text == old(text) + s
      ensures !ok ==> unchanged(this)
    {
      if !writable {
        return false;
      }
      if present {
        text := text + s;
      } else {
        present := true;
        text := s;
      }
      ok := true;
    }
  }

  /** What a call of the builder does: its outcome and the text it appends. */
  datatype Effect = Effect(outcome: Outcome, appended: string)

  function SnapshotEffect(changed: Option<ChangedFile>, oldContent: string, newContent: string,
                          differ: Differ, ignore: Option<Matcher>, sinkWritable: bool): (e: Effect)
    ensures e.appended != "" <==> e.outcome == Written
    ensures e.outcome == Written <==> Decide(changed, ignore) == Written && sinkWritable
    ensures e.outcome == Written ==>
              e.appended == SnapshotText(changed.value.relPath.value, differ(oldContent, newContent))
    ensures Decide(changed, ignore) != Written ==> e.outcome == Decide(changed, ignore)
    ensures Decide(changed, ignore) == Written && !sinkWritable ==> e.outcome == Failed(PermissionDenied)
  {
    var d := Decide(changed, ignore);
    if d != Written then Effect(d, "")
    else if !sinkWritable then Effect(Failed(PermissionDenied), "")
    else
      var rel := changed.value.relPath.value;
      var diff := differ(oldContent, newContent);
      SnapshotTextLayout(rel, diff);
      Effect(Written, SnapshotText(rel, diff))
  }

  /** `create_code_snapshot`: skip, or build the record and append it. */
  method CreateCodeSnapshot(changed: Option<ChangedFile>, oldContent: string, newContent: string,
                            differ: Differ, ignore: Option<Matcher>, sink: SnapshotFile)
    returns (o: Outcome)
    requires sink.Valid()
    modifies sink
    ensures sink.Valid()
    ensures var e := SnapshotEffect(changed, oldContent, newContent, differ, ignore, old(sink.writable));
            o == e.outcome && sink.text == old(sink.text) + e.appended
    ensures o == Written ==> sink.present && sink.writable == old(sink.writable)
    ensures o != Written ==> unchanged(sink)
  {
    if changed.None? {
      return NoFile;
    }
    var file := changed.value;
    if file.relPath.None? {
      return Failed(NotUnderRoot);
    }
    var rel := file.relPath.value;
    if ignore.Some? && ignore.value(rel) {
      return Ignored;
    }
    if IsBinarySuffix(file.suffix) {
      return Binary;
    }
    var diff := differ(oldContent, newContent);
    var pieces := BuildRecord(rel, diff);
    var ok := sink.Append(Join(pieces));
    o := if ok then Written else Failed(PermissionDenied);
  }
}
