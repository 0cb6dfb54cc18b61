/** The event handler of utils/file_watcher.py.

    A `SnapshotHandler` keeps the time of the last completed snapshot, a
    cooldown, and the history map from each file's resolved absolute path to
    the content last read from it. On a file event it drops the event inside
    the cooldown window, reads the file (a decoding or permission failure
    drops the event), hands the previously stored content (or "") and the new
    content to the snapshot builder after storing the new content, and then
    advances the clock, unless the builder raised (a failed open of the
    snapshot file, or a path outside the root).

    The clock reading and the outcome of reading the file are parameters of
    each call; so are the ignore rules, which the builder loads afresh on
    every call, and the unified diff.
 */
module FileWatcher {

  import opened CodeSnapshot

  /** What reading the changed file as UTF-8 gives. */
  datatype ReadResult =
    | Read(text: string)
    | DecodeError        // UnicodeDecodeError: caught, the event is dropped
    | PermissionError    // PermissionError: caught, the event is dropped
    | NotFound           // FileNotFoundError (the file went away): not caught

  /** A watchdog event: whether its source is a directory, and its path once resolved. */
  datatype Event = Event(isDirectory: bool, srcPath: ChangedFile)

  /** Which way a call of the handler went. */
  datatype Handled =
    | Throttled                   // inside the cooldown window
    | ReadDropped                 // the read failed with a caught error
    | ReadRaised                  // the read failed with an error that escapes
    | Processed(outcome: Outcome) // the builder was called; its outcome. The handler
                                  // catches Failed(PermissionDenied) and returns; with
                                  // Failed(NotUnderRoot) the ValueError escapes it.

  const DefaultCooldown: int := 2

  /** The handler's state as a value. */
  datatype Watch = Watch(lastSnapshot: int, cooldown: int, fileContents: map<string, string>)

  /** The result of one call: the new state, the way it went, the text appended to the sink. */
  datatype Step = Step(next: Watch, handled: Handled, appended: string)

  predicate InCooldown(w: Watch, now: int) {
    now - w.lastSnapshot < w.cooldown
  }

  /** `dict.get(path, '')`. */
  function Stored(contents: map<string, string>, path: string): string
  {
    if path in contents then contents[path] else ""
  }

  /** One call of `handle_file_change`, as a function of the state before it. */
  function HandleStep(w: Watch, path: ChangedFile, now: int, read: ReadResult,
                      ignore: Option<Matcher>, differ: Differ, sinkWritable: bool): (r: Step)
    ensures r.next.cooldown == w.cooldown
    ensures r.handled == Throttled <==> InCooldown(w, now)
    ensures r.next.lastSnapshot == w.lastSnapshot || r.next.lastSnapshot == now
    ensures !read.Read? ==> r.next == w
    ensures r.next.fileContents.Keys <= w.fileContents.Keys + {path.absPath}
    ensures r.appended != "" <==> r.handled == Processed(Written)
  {
    if InCooldown(w, now) then Step(w, Throttled, "")
    else match read
      case DecodeError => Step(w, ReadDropped, "")
      case PermissionError => Step(w, ReadDropped, "")
      case NotFound => Step(w, ReadRaised, "")
      case Read(text) =>
        var prev := Stored(w.fileContents, path.absPath);
        var contents := w.fileContents[path.absPath := text];
        var e := SnapshotEffect(Some(path), prev, text, differ, ignore, sinkWritable);
        var last := if e.outcome.Failed? then w.lastSnapshot else now;
        Step(Watch(last, w.cooldown, contents), Processed(e.outcome), e.appended)
  }

  /** The successful read that a call adds to the history, if any. */
  function NewReads(w: Watch, path: ChangedFile, now: int, read: ReadResult): seq<(string, string)> {
    if !InCooldown(w, now) && read.Read? then [(path.absPath, read.text)] else []
  }

  // ---------------------------------------------------------------------------
  // Properties of one call

  /** Inside the cooldown window nothing changes and nothing is written. */
  lemma CooldownDropsEvent(w: Watch, path: ChangedFile, now: int, read: ReadResult,
                           ignore: Option<Matcher>, differ: Differ, sinkWritable: bool)
    requires now - w.lastSnapshot < w.cooldown
    ensures HandleStep(w, path, now, read, ignore, differ, sinkWritable) == Step(w, Throttled, "")
  {
  }

  /** A failed read changes neither the history nor the clock, and writes nothing. */
  lemma FailedReadChangesNothing(w: Watch, path: ChangedFile, now: int, read: ReadResult,
                                 ignore: Option<Matcher>, differ: Differ, sinkWritable: bool)
    requires !read.Read?
    ensures var s := HandleStep(w, path, now, read, ignore, differ, sinkWritable);
            s.next == w && s.appended == ""
            && (!InCooldown(w, now) ==> s.handled == if read.NotFound? then ReadRaised else ReadDropped)
  {
  }

  /** After a successful read the history sends the path to the new content
      and keeps every other entry; the builder diffs against the stored
      content, or "" for a path never seen; the clock advances to `now`
      unless the builder raised, even when it skipped the file. */
  lemma SuccessfulReadUpdatesHistory(w: Watch, path: ChangedFile, now: int, text: string,
                                     ignore: Option<Matcher>, differ: Differ, sinkWritable: bool)
    requires now - w.lastSnapshot >= w.cooldown
    ensures var s := HandleStep(w, path, now, Read(text), ignore, differ, sinkWritable);
            var e := SnapshotEffect(Some(path), Stored(w.fileContents, path.absPath), text,
                                    differ, ignore, sinkWritable);
            && path.absPath in s.next.fileContents
            && s.next.fileContents[path.absPath] == text
            && (forall q :: q != path.absPath ==>
                  (q in s.next.fileContents <==> q in w.fileContents) &&
                  Stored(s.next.fileContents, q) == Stored(w.fileContents, q))
            && s.handled == Processed(e.outcome)
            && s.appended == e.appended
            && s.next.cooldown == w.cooldown
            && (e.outcome in {Ignored, Binary, Written} ==> s.next.lastSnapshot == now)
            && (e.outcome.Failed? ==> s.next.lastSnapshot == w.lastSnapshot)
  {
  }

  /** When opening the snapshot file fails, the history has already taken the
      new content but the clock has not moved. */
  lemma SinkFailureKeepsNewContent(w: Watch, path: ChangedFile, now: int, text: string,
                                   ignore: Option<Matcher>, differ: Differ)
    requires now - w.lastSnapshot >= w.cooldown
    requires Decide(Some(path), ignore) == Written
    ensures var s := HandleStep(w, path, now, Read(text), ignore, differ, false);
            s.handled == Processed(Failed(PermissionDenied)) &&
            s.next == Watch(w.lastSnapshot, w.cooldown, w.fileContents[path.absPath := text]) &&
            s.appended == ""
  {
  }

  /** The cooldown is global: once an event on any path completes at `t1`,
      an event on any path at `t2` with `t2 - t1 < cooldown` is dropped and
      leaves the state as the first left it. */
  lemma CooldownSuppressesBurst(w: Watch, p1: ChangedFile, t1: int, r1: ReadResult,
                                p2: ChangedFile, t2: int, r2: ReadResult,
                                ignore: Option<Matcher>, differ: Differ, sinkWritable: bool)
    requires var s := HandleStep(w, p1, t1, r1, ignore, differ, sinkWritable);
             s.handled.Processed? && !s.handled.outcome.Failed?
    requires t2 - t1 < w.cooldown
    ensures var s := HandleStep(w, p1, t1, r1, ignore, differ, sinkWritable);
            HandleStep(s.next, p2, t2, r2, ignore, differ, sinkWritable) == Step(s.next, Throttled, "")
  {
  }

  // ---------------------------------------------------------------------------
  // The history as a log of successful reads

  /** The map built by storing each successful read in turn. */
  function StoreAll(m: map<string, string>, log: seq<(string, string)>): map<string, string>
    decreases |log|
  {
    if log == [] then m else StoreAll(m[log[0].0 := log[0].1], log[1..])
  }

  function History(log: seq<(string, string)>): map<string, string> {
    StoreAll(map[], log)
  }

  /** The content of the most recent read of `path` in the log, or "". */
  function LastRead(log: seq<(string, string)>, path: string): string {
    if log == [] then ""
    else if log[|log| - 1].0 == path then log[|log| - 1].1
    else LastRead(log[..|log| - 1], path)
  }

  predicate EverRead(log: seq<(string, string)>, path: string) {
    exists i :: 0 <= i < |log| && log[i].0 == path
  }

  lemma {:induction false} StoreAllSnoc(m: map<string, string>, log: seq<(string, string)>,
                                        x: (string, string))
    ensures StoreAll(m, log + [x]) == StoreAll(m, log)[x.0 := x.1]
    decreases |log|
  {
    if log == [] {
      assert log + [x] == [x];
      assert [x][1..] == [];
    } else {
      assert (log + [x])[1..] == log[1..] + [x];
      StoreAllSnoc(m[log[0].0 := log[0].1], log[1..], x);
    }
  }

  /** The history map holds exactly the paths ever read, each with the
      content of its most recent successful read. */
  lemma {:induction false} HistoryIsLastRead(log: seq<(string, string)>, path: string)
    ensures path in History(log) <==> EverRead(log, path)
    ensures Stored(History(log), path) == LastRead(log, path)
    decreases |log|
  {
    if log != [] {
      var n := |log| - 1;
      var init := log[..n];
      assert log == init + [log[n]];
      StoreAllSnoc(map[], init, log[n]);
      HistoryIsLastRead(init, path);
      if EverRead(init, path) {
        var i :| 0 <= i < |init| && init[i].0 == path;
        assert log[i].0 == path;
      }
      if EverRead(log, path) && log[n].0 != path {
        var i :| 0 <= i < |log| && log[i].0 == path;
        assert init[i].0 == path;
      }
    }
  }

  // ---------------------------------------------------------------------------
  // The handler object

  class SnapshotHandler {
    var lastSnapshot: int
    const cooldown: int
    var fileContents: map<string, string>
    /** The successful reads so far, in order. */
    ghost var readLog: seq<(string, string)>

    ghost predicate Valid()
      reads this
    {
      fileContents == History(readLog)
    }

    function State(): Watch
      reads this
    {
      Watch(lastSnapshot, cooldown, fileContents)
    }

    constructor (cooldown: int := DefaultCooldown)
      ensures Valid()
      ensures lastSnapshot == 0 && this.cooldown == cooldown && fileContents == map[] && readLog == []
    {
      lastSnapshot := 0;
      this.cooldown := cooldown;
      fileContents := map[];
      readLog := [];
    }

    method HandleFileChange(path: ChangedFile, now: int, read: ReadResult,
                            ignore: Option<Matcher>, differ: Differ, sink: SnapshotFile)
      returns (h: Handled)
      requires Valid() && sink.Valid()
      modifies this, sink
      ensures Valid() && sink.Valid()
      ensures var s := HandleStep(old(State()), path, now, read, ignore, differ, old(sink.writable));
              State() == s.next && h == s.handled && sink.text == old(sink.text) + s.appended
      ensures readLog == old(readLog) + NewReads(old(State()), path, now, read)
      ensures sink.writable == old(sink.writable)
      ensures h != Processed(Written) ==> unchanged(sink)
    {
      if now - lastSnapshot < cooldown {
        return Throttled;
      }
      match read {
        case DecodeError =>
          return ReadDropped;
        case PermissionError =>
          return ReadDropped;
        case NotFound =>
          return ReadRaised;
        case Read(newContent) =>
          var oldContent := if path.absPath in fileContents then fileContents[path.absPath] else "";
          StoreAllSnoc(map[], readLog, (path.absPath, newContent));
          fileContents := fileContents[path.absPath := newContent];
          readLog := readLog + [(path.absPath, newContent)];
          var o := CreateCodeSnapshot(Some(path), oldContent, newContent, differ, ignore, sink);
          if o.Failed? {
            return Processed(o);
          }
          lastSnapshot := now;
          h := Processed(o);
      }
    }

    method OnModified(event: Event, now: int, read: ReadResult,
                      ignore: Option<Matcher>, differ: Differ, sink: SnapshotFile)
      returns (h: Option<Handled>)
      requires Valid() && sink.Valid()
      modifies this, sink
      ensures Valid() && sink.Valid()
      ensures event.isDirectory ==> h == None && unchanged(this) && unchanged(sink)
      ensures !event.isDirectory ==>
                var s := HandleStep(old(State()), event.srcPath, now, read, ignore, differ, old(sink.writable));
                State() == s.next && h == Some(s.handled) && sink.text == old(sink.text) + s.appended &&
                readLog == old(readLog) + NewReads(old(State()), event.srcPath, now, read)
      ensures h != Some(Processed(Written)) ==> unchanged(sink)
      ensures sink.writable == old(sink.writable)
    {
      if event.isDirectory {
        return None;
      }
      var handled := HandleFileChange(event.srcPath, now, read, ignore, differ, sink);
      h := Some(handled);
    }

    method OnCreated(event: Event, now: int, read: ReadResult,
                     ignore: Option<Matcher>, differ: Differ, sink: SnapshotFile)
      returns (h: Option<Handled>)
      requires Valid() && sink.Valid()
      modifies this, sink
      ensures Valid() && sink.Valid()
      ensures event.isDirectory ==> h == None && unchanged(this) && unchanged(sink)
      ensures !event.isDirectory ==>
                var s := HandleStep(old(State()), event.srcPath, now, read, ignore, differ, old(sink.writable));
                State() == s.next && h == Some(s.handled) && sink.text == old(sink.text) + s.appended &&
                readLog == old(readLog) + NewReads(old(State()), event.srcPath, now, read)
      ensures h != Some(Processed(Written)) ==> unchanged(sink)
      ensures sink.writable == old(sink.writable)
    {
      if event.isDirectory {
        return None;
      }
      var handled := HandleFileChange(event.srcPath, now, read, ignore, differ, sink);
      h := Some(handled);
    }
  }

  // ---------------------------------------------------------------------------
  // Runs of a fresh handler

  /** A fresh handler with the default cooldown and a new, writable snapshot
      file: a directory event is ignored, and of two file events on any
      paths less than the cooldown apart the second is dropped, so the file
      holds at most one record. */
  method BurstYieldsOneRecord(p1: ChangedFile, t1: int, c1: string, d: ChangedFile, td: int,
                              p2: ChangedFile, t2: int, c2: string,
                              ignore: Option<Matcher>, differ: Differ)
    returns (first: Option<Handled>, dir: Option<Handled>, second: Option<Handled>, log: string)
    requires p1.relPath.Some?
    requires t1 >= DefaultCooldown && t2 - t1 < DefaultCooldown
    ensures first == Some(Processed(Decide(Some(p1), ignore)))
    ensures dir == None
    ensures second == Some(Throttled)
    ensures log == if Decide(Some(p1), ignore) == Written
                   then SnapshotText(p1.relPath.value, differ("", c1))
                   else ""
  {
    var handler := new SnapshotHandler();
    var sink := new SnapshotFile(false, "", true);
    first := handler.OnCreated(Event(false, p1), t1, Read(c1), ignore, differ, sink);
    dir := handler.OnModified(Event(true, d), td, Read(c2), ignore, differ, sink);
    second := handler.OnModified(Event(false, p2), t2, Read(c2), ignore, differ, sink);
    log := sink.text;
  }

  /** A fresh handler: after a first read of `a`, an undecodable read is
      dropped, and the next successful read diffs `b` against `a`, the last
      content read successfully, not against "". */
  method FailedReadKeepsPreviousContent(p: ChangedFile, t1: int, a: string, t2: int, t3: int,
                                        b: string, ignore: Option<Matcher>, differ: Differ)
    returns (log: string)
    requires Decide(Some(p), ignore) == Written
    requires t1 >= DefaultCooldown && t2 - t1 >= DefaultCooldown && t3 - t1 >= DefaultCooldown
    ensures log == SnapshotText(p.relPath.value, differ("", a)) +
                   SnapshotText(p.relPath.value, differ(a, b))
  {
    var handler := new SnapshotHandler();
    var sink := new SnapshotFile(false, "", true);
    var rel := p.relPath.value;
    var h := handler.OnCreated(Event(false, p), t1, Read(a), ignore, differ, sink);
    assert handler.State() == Watch(t1, DefaultCooldown, map[p.absPath := a]);
    assert sink.text == SnapshotText(rel, differ("", a));
    h := handler.OnModified(Event(false, p), t2, DecodeError, ignore, differ, sink);
    assert handler.State() == Watch(t1, DefaultCooldown, map[p.absPath := a]);
    assert sink.text == SnapshotText(rel, differ("", a));
    h := handler.OnModified(Event(false, p), t3, Read(b), ignore, differ, sink);
    log := sink.text;
  }
}
