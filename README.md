# Code snapshot watcher, modelled in Dafny

The code snapshot watcher watches a directory tree and reacts to file
events. An event on a directory is ignored, and so is any event that comes
less than the cooldown after the last completed snapshot, whatever its
path. Otherwise the changed file is read as UTF-8; when that fails the
event is dropped (a file that has vanished makes the error escape). The
new content is stored, and a record is appended to a plain-text snapshot
file when the path lies under the watched root, is not
matched by the ignore rules and has no binary suffix. The record is a
header naming the file relative to the root. When the unified diff of the
previously stored lines and the new lines is non-empty, a `Changes:` block
follows, holding every diff line after the first two (the file headers).

This project models the two pieces of the program that carry its logic.

- `code_snapshot.dfy`, module `CodeSnapshot`: the snapshot-record builder
  `create_code_snapshot`. It covers the skip conditions (no file, a path
  outside the root, an ignored path, a binary suffix compared without regard
  to case), the three-piece header, the loop that renders every diff line
  after the first two, and the append to the snapshot file. The file is
  modelled as the class `SnapshotFile`: whether it exists, its text, and
  whether opening it succeeds.
- `file_watcher.dfy`, module `FileWatcher`: the event handler
  `SnapshotHandler`. It is a class holding the clock of the last completed
  snapshot, the cooldown (2 by default) and the history map from resolved
  absolute path to last content read. It covers:
  - the global cooldown gate;
  - the read that can fail;
  - the history lookup with `""` as default, then the overwrite;
  - the call of the builder;
  - the clock update;
  - the two entry points that drop directory events.

Each state-changing method is tied to a pure function of the state before
the call: `SnapshotEffect` for the builder, `HandleStep` for the handler.
The lemmas beside them state what the program promises. The history map is
also related to a ghost log of successful reads: `HistoryIsLastRead` proves
that the map holds, for every path, the content of its most recent
successful read.

Foreign code and I/O enter as parameters:
- the unified diff is a `Differ`, a function from old and new content to
  diff lines;
- the compiled ignore rules are an `Option<Matcher>`, where `None` means no
  ignore file, or one without patterns;
- the resolved path comes in with its relative form and its suffix;
- the clock reading and the outcome of reading the file come in as values.

Points where the code behaves in ways a reader might not expect, all
modelled as the code does them:
- The ignore file is loaded again on every call of the builder
  (`utils/create_code_snapshot.py:20`), not once at startup. The model takes
  the ignore rules as a parameter of every call.
- The history map is updated before the ignore and binary filters run
  (`utils/file_watcher.py:25` runs before `utils/create_code_snapshot.py:25-30`).
  So an ignored or binary file still has its content stored.
- The cooldown clock advances after every builder call that returns
  normally, including one that skipped the file as ignored or binary.
- Only plain text is written. The code has no coloured terminal copy.
- A path outside the watched root makes `relative_to` raise `ValueError`.
  This exception is not caught by the handler, so it escapes. The model
  records it as `Failed(NotUnderRoot)`. In that case the history map has
  been updated and the clock has not.
- A read that fails because the file no longer exists raises
  `FileNotFoundError`, which is not caught either. It is `ReadRaised` in the
  model and changes nothing.

## Model

| member | source | states |
|---|---|---|
| CodeSnapshot.Repeat | utils/create_code_snapshot.py:32-34 | the separator `'=' * 80` is 80 characters, all `=` |
| CodeSnapshot.Join | utils/create_code_snapshot.py:56 | `'\n'.join` of a non-empty list is as long as its pieces plus one newline per gap |
| CodeSnapshot.JoinConcat | utils/create_code_snapshot.py:56 | `'\n'.join` of two non-empty piece lists is the two joins with one newline between them |
| CodeSnapshot.IsBinarySuffix | utils/create_code_snapshot.py:29 | a suffix taken as binary is four characters, a dot followed by `e`, `d` or `p` in either case |
| CodeSnapshot.BinarySuffixIgnoresCase | utils/create_code_snapshot.py:29-30 | a suffix is skipped as binary exactly when it equals `.exe`, `.dll`, `.pyc` or `.pyo` ignoring case |
| CodeSnapshot.BinarySuffixExamples | utils/create_code_snapshot.py:29-30 | `.EXE` and `.Pyc` are rejected like `.exe`; `.py`, `exe` and the empty suffix are not |
| CodeSnapshot.Decide | utils/create_code_snapshot.py:17-30 | the builder skips with `NoFile` exactly when there is no file, and fails with `NotUnderRoot` exactly when the path is outside the root; `Ignored` only for a path the rules match and `Binary` only for a binary suffix |
| CodeSnapshot.DecideWritesOnlyAcceptedFiles | utils/create_code_snapshot.py:17-30 | a record is written only for a present file under the root that is not ignored and has no binary suffix, and then always; content plays no part |
| CodeSnapshot.KindOf | utils/create_code_snapshot.py:44-50 | a line is added exactly when its first character is `+`, removed exactly when it is `-`, and a hunk header exactly when it starts with `@@` |
| CodeSnapshot.RenderLine | utils/create_code_snapshot.py:44-51 | a `@@` line becomes `"\n" + line + "\n"`; any other line becomes its kind's marker (`+`, `-`, space) followed by the line after its first character |
| CodeSnapshot.RenderBodyLineStable | utils/create_code_snapshot.py:44-51 | rendering keeps a body line's kind and renders an already rendered body line to itself; a line starting with a space is emitted unchanged |
| CodeSnapshot.RenderLines | utils/create_code_snapshot.py:43-51 | one rendered piece per line, in the same order |
| CodeSnapshot.Record | utils/create_code_snapshot.py:32-51 | a record starts with the three header pieces; an empty diff gives exactly those three; a diff of n >= 2 lines gives 3 + 1 + (n - 2) pieces and a one-line diff gives 4, with the `Changes:` marker fourth; piece k + 2 is the rendering of diff line k for every k >= 2 |
| CodeSnapshot.RecordIgnoresFileHeaders | utils/create_code_snapshot.py:43 | the first two diff lines never reach the record: two diffs that agree from line 2 on give the same record |
| CodeSnapshot.SnapshotTextLayout | utils/create_code_snapshot.py:32-56 | the appended text begins with the header text; an empty diff appends exactly the header; otherwise `"\n\nChanges:\n"` follows, then the rendered lines joined by newlines |
| CodeSnapshot.RenderBody | utils/create_code_snapshot.py:43-51 | the loop with its if/elif chain produces the rendering of every line of `diff[2:]`, in order |
| CodeSnapshot.BuildRecord | utils/create_code_snapshot.py:32-51 | the successive appends build exactly the record of the file and its diff |
| CodeSnapshot.SnapshotFile.Append | utils/create_code_snapshot.py:54-56 | opening in mode 'a' or 'w' and writing leaves the old text followed by the new, and the file exists; a failed open changes nothing |
| CodeSnapshot.SnapshotEffect | utils/create_code_snapshot.py:16-56 | the outcome is `Written` exactly when the file is accepted and the snapshot file can be opened, and text is appended exactly then: the record text of the relative path and the diff of old and new content; a skip keeps its reason, and a failed open of an accepted file is `PermissionDenied` |
| CodeSnapshot.CreateCodeSnapshot | utils/create_code_snapshot.py:16-56 | the builder's outcome and the sink's new text are those of `SnapshotEffect`; the earlier text stays as a prefix, and the sink is untouched unless a record is written |
| FileWatcher.HandleStep | utils/file_watcher.py:13-31 | one call keeps the cooldown, is dropped exactly inside the cooldown window, leaves the clock at its old value or at `now`, changes nothing on a failed read, adds no key but the path, and appends text exactly when a record is written |
| FileWatcher.CooldownDropsEvent | utils/file_watcher.py:14-16 | when `now - last_snapshot < cooldown` the state is unchanged and nothing is written |
| FileWatcher.FailedReadChangesNothing | utils/file_watcher.py:21-31 | a decode, permission or missing-file failure of the read leaves history and clock unchanged and writes nothing; only the missing file escapes |
| FileWatcher.SuccessfulReadUpdatesHistory | utils/file_watcher.py:24-29 | after a read the path maps to the new content and every other key is unchanged; the builder gets the stored content or `""`; the clock becomes `now` even when the file was ignored or binary, and stays when the builder raised |
| FileWatcher.SinkFailureKeepsNewContent | utils/file_watcher.py:25-31 | when the snapshot file cannot be opened, the history already holds the new content and the clock has not moved |
| FileWatcher.CooldownSuppressesBurst | utils/file_watcher.py:15-29 | once an event on any path completes at t1, an event on any path at t2 with `t2 - t1 < cooldown` is dropped with the state unchanged |
| FileWatcher.HistoryIsLastRead | utils/file_watcher.py:24-25 | the history map holds exactly the paths ever read successfully, each with its most recent content; `Stored`, the lookup `dict.get(path, '')` of line 24, gives that content, and `""` for a path never read |
| FileWatcher.SnapshotHandler.constructor | utils/file_watcher.py:8-11 | a new handler has clock 0, empty history and the given cooldown, 2 by default |
| FileWatcher.SnapshotHandler.HandleFileChange | utils/file_watcher.py:13-31 | the new state, the way the call went and the appended text are those of `HandleStep`; the history stays the map of the successful-read log, which grows by the read exactly when the gate passes and the read succeeds |
| FileWatcher.SnapshotHandler.OnModified | utils/file_watcher.py:33-36 | a directory event changes nothing; a file event does exactly what `HandleFileChange` does, and leaves the snapshot file untouched unless a record is written |
| FileWatcher.SnapshotHandler.OnCreated | utils/file_watcher.py:38-41 | the same as `OnModified` |
| FileWatcher.BurstYieldsOneRecord | utils/file_watcher.py:13-41 | for a fresh handler, a first file event is processed, a directory event is ignored, and a second file event less than the cooldown after the first is dropped; the snapshot file holds at most the first record, diffed against `""` |
| FileWatcher.FailedReadKeepsPreviousContent | utils/file_watcher.py:13-31 | for a fresh handler, after a read of `a` and an undecodable read, the next read of `b` records the diff of `a` against `b`, not of `""` against `b` |

## Left out

- The unified diff algorithm (`difflib.unified_diff` over `str.splitlines`) is foreign code. It is the `Differ` parameter. So no property of hunks, context width or patch round-trip is stated.
- Gitignore pattern semantics (`pathspec`) are foreign code, and reading `.gitignore` (`get_gitignore_spec`) is I/O. Both are folded into the `Option<Matcher>` parameter.
- `Path.resolve`, `relative_to` and `suffix` are library path handling. The resolved path, its relative form (`None` when `relative_to` raises) and its suffix are inputs.
- `time.time()` returns a float. The clock is an integer parameter.
- Opening and reading the changed file is I/O. Its outcome is the `ReadResult` parameter. Only decode failure, permission failure and a missing file are distinguished; other `OSError`s are not modelled.
- Only a `PermissionError` when opening the snapshot file is modelled. Other `OSError`s, and encoding errors on write, are not modelled.
- The file is checked for existence and then opened. Those are two separate steps, and a race between them is not modelled.
- The `print` calls have no effect in the model.
- `start_watcher`, the watchdog `Observer`, the sleep loop and the handling of `KeyboardInterrupt` are event-delivery plumbing and concurrency.
- Failures of the `.gitignore` read in `get_gitignore_spec` (`utils/create_code_snapshot.py:20`) are not modelled: the ignore rules are an `Option<Matcher>`, which cannot fail. In the code a `PermissionError` or `UnicodeDecodeError` there is caught by the handler (`utils/file_watcher.py:30`) after the history update, with the clock kept and nothing written, even for a path outside the root.
- The default snapshot file lies inside the watched tree, so each write fires an event of its own, which the global cooldown normally drops. In the model the snapshot file and the files read are unrelated.
- `str.lower` is modelled on ASCII letters only. For the four ASCII suffixes in the set this is exact: no other character lowercases to one of their letters.
