# Simple DinD CLI agent: path sandbox, file tools and turn history

This project models the core of the Simple DinD CLI agent.

The agent is a chat front end. It runs a reasoning engine inside a Docker container. The engine has tools that act on the mounted volume `/workdir`. The model covers three parts of `main.py`:

- **The path sandbox (`_safe_path`)**: it joins a caller's path onto `/workdir` with POSIX `os.path.join` and normalises it with `os.path.abspath`. It accepts the result only if its text begins with `"/workdir"`; otherwise it raises `ValueError("Path escapes /workdir – forbidden")`. Module `PosixPath` models `str.split('/')`, `'/'.join` and `posixpath.normpath` in full: the separator split, the one- and two-slash root rules, `.`, `..` in absolute and relative mode, and the empty result `"."`. Module `Sandbox` models the join onto the root (`Sandbox.JoinRoot`) and `_safe_path` on top of `PosixPath`.
- **The file tools (`write_file`, `read_file`)**: these run over a filesystem. The filesystem is a map from resolved absolute paths to text contents plus a set of directories. `FileTools.Write` and `FileTools.Read` give the meaning of each call as a value: the new filesystem and the reply or exception. Class `FileTools.Workdir` holds the container's filesystem as mutable fields, and its methods `WriteFile` and `ReadFile` are proved against those functions. The cases follow the Python calls in order:
  - `os.makedirs(dirname, exist_ok=True)` raises `FileExistsError` when the dirname is a file, and `NotADirectoryError` when a directory higher up is a file. Otherwise it creates every missing directory above the target.
  - A NUL character in a directory name makes `os.mkdir` raise `ValueError("embedded null byte")`. `makedirs` has by then created the directories above that name, unless one of them is a file.
  - `open(path, "w")` then raises the same `ValueError` on a path holding NUL and `IsADirectoryError` on a directory. Otherwise it creates or overwrites the file.
  - The reply is `"Wrote <n> bytes to <path>"`. Here `<n>` is `len(content)` and `<path>` is the argument as the caller gave it.
  - `open(path, "r")` raises `ValueError` on a path holding NUL, `IsADirectoryError` on a directory, `NotADirectoryError` when a directory above is a file, and `FileNotFoundError` otherwise.
  - `open(path, "r")` reads in text mode with the default universal newlines, so `f.read()` returns each `"\r\n"`, and then each remaining `"\r"`, as `"\n"`. Writing with `open(path, "w")` on POSIX stores the text unchanged. So `write_file` then `read_file` gives the content back exactly only when it holds no carriage return.
- **The turn handler** (`main.py` lines 91-119): class `Session.ChatSession` holds `st.session_state.history`. `Submit` does nothing for an empty prompt. Otherwise it appends a `user` entry and runs the agent on the prompt with a budget of 40 turns. It then appends one `{role, content}` record per new item, in order. The records are:

  | item | role | content |
  |---|---|---|
  | tool call | `tool` | a 🔧 header and the arguments in a `json` block |
  | tool result | `tool_result` | a 📤 header and the output in a code block |
  | message | `assistant` | a 🤖 header and the text in a code block |
  | reasoning item | `reasoning` | its raw item |
  | anything else | `unknown` | its string form |

Points where the code's behaviour is easy to mistake:

- **Prefix test, not containment.** `startswith(WORKDIR)` compares text, so `"../workdir2/f"` resolves to `"/workdir2/f"` and is accepted. `Sandbox.PrefixTestMeaning` states exactly what the test accepts, and `Sandbox.SiblingAccepted` / `Sandbox.SiblingOutside` show the sibling case.
- **Newlines on read.** `read_file` does not return "the full contents" byte for byte: text written as `"x\r\ny"` reads back as `"x\ny"`. `FileTools.WriteThenRead` states the round trip with this translation, and `FileTools.UniversalCRLFExample` shows the case.
- **Character count.** The confirmation reports `len(content)`, a count of characters, although it says "bytes". The model reports the number of characters in the content.
- **No line cap.** `execute_command` returns the full output.
- **Only the prompt reaches the engine.** The turn handler passes only the prompt to `Runner.run` and keeps no separate history for the engine. The model's engine is a function of the prompt and the turn budget alone.

## Model

| member | source | states |
|---|---|---|
| PosixPath.Split | main.py:21 | `str.split('/')`: always at least one part, and no part holds `/`. `PosixPath.JoinSplit` and `PosixPath.SplitJoin` relate it to `Join`. |
| PosixPath.Join | main.py:21 | `'/'.join`. It has no contract of its own; see `PosixPath.JoinSplit`, `PosixPath.SplitJoin` and `PosixPath.JoinContains`. |
| PosixPath.NormPath | main.py:21 | `posixpath.normpath`. It has no contract of its own; see `PosixPath.NormPathAbsolute`, `NormPathDoubleSlash`, `NormPathCanonical` and `FoldRebase`. |
| PosixPath.JoinSplit | main.py:21 | Joining the separator-split components of any string with `/` gives the string back. |
| PosixPath.SplitJoin | main.py:21 | Splitting the `/`-join of separator-free components gives back the same components. |
| PosixPath.NormPathAbsolute | main.py:21 | For a path with exactly one leading slash, `normpath` is `/` followed by components that are all non-empty and free of `.`, `..` and `/`. The result is canonical. |
| PosixPath.NormPathDoubleSlash | main.py:21 | A path that starts with exactly two slashes keeps both slashes after `normpath`. |
| PosixPath.NormPathCanonical | main.py:21 | `normpath` leaves a canonical absolute path unchanged (it is idempotent there). |
| PosixPath.FoldClean | main.py:21 | Components with no `.`, `..` or empty part are pushed onto the stack unchanged. |
| PosixPath.FoldAbsoluteClean | main.py:21 | In absolute mode, the resolved stack never holds `..`, `.` or an empty component. |
| PosixPath.FoldRebase | main.py:21 | Normalising `root + relative` in absolute mode gives the relative normal form rebased onto the root. Each leading `..` pops one root component, and a `..` already at `/` is dropped. The relative normal form keeps its shape: some `..`, then clean names. |
| PosixPath.PathOfClean | main.py:21 | A slash followed by clean components is canonical, and splitting it gives those components back. |
| PosixPath.CanonicalPathOf | main.py:21 | A canonical path is a slash followed by its clean components. |
| Sandbox.JoinRoot | main.py:21 | `os.path.join(WORKDIR, path)` is always absolute. An absolute argument replaces the root. |
| Sandbox.SafePath | main.py:19-24 | An accepted result begins with `"/workdir"` and is a canonical absolute path. Every rejection is `ValueError` with the message `"Path escapes /workdir – forbidden"`. |
| Sandbox.StartsWith | main.py:22 | `str.startswith`, a textual test. It has no contract of its own; see `Sandbox.PrefixTestMeaning`, `SlashPrefix` and `WordPrefix`. |
| Sandbox.ResolvedShape | main.py:21-22 | A normalised absolute path that passes the prefix test is canonical. That rules out `//` paths (see `Sandbox.DoubleSlashRejected`). |
| Sandbox.PrefixTestMeaning | main.py:22 | On a canonical path, the prefix test holds exactly when the first component begins with `workdir`. Containment in `/workdir` holds exactly when the first component is `workdir`. Both directions are proved. |
| Sandbox.SafePathIdempotent | main.py:19-24 | An accepted result is in normal form, and resolving it again gives the same result. |
| Sandbox.AbsoluteArgument | main.py:21-23 | A canonical absolute argument discards the root. It is accepted unchanged if it begins with `"/workdir"` and rejected otherwise. |
| Sandbox.DoubleSlashRejected | main.py:21-23 | An argument starting with exactly two slashes is always rejected. |
| Sandbox.SplitUnderRoot | main.py:21 | A relative argument joined onto the root splits as the root's one component followed by the argument's own components. |
| Sandbox.RelativeResolved | main.py:21 | A relative argument resolves to its relative normal form rebased onto `["workdir"]`. |
| Sandbox.RelativeInside | main.py:21-24 | If the relative normal form has no leading `..`, the argument is accepted as `/workdir/` followed by its names, which lies within `/workdir`. |
| Sandbox.RelativeClimbing | main.py:21-23 | If one or more leading `..` remain, the root is gone and the result is the remaining names under `/`. The textual test alone then decides acceptance. |
| Sandbox.ClimbOutRejected | main.py:21-23 | `"../../etc/passwd"` is rejected with the escape error. |
| Sandbox.DotDotInsideAccepted | main.py:21-24 | `"a/../b"` resolves to `"/workdir/b"` and is accepted. |
| Sandbox.EmptyIsRoot | main.py:21-24 | The empty argument resolves to `"/workdir"` itself. |
| Sandbox.AbsoluteOutsideRejected | main.py:21-23 | `"/etc/passwd"` is rejected. |
| Sandbox.AbsoluteInsideKept | main.py:21-24 | `"/workdir/x"` is accepted unchanged. |
| Sandbox.SiblingAccepted | main.py:21-24 | `"../workdir2/f"` is accepted as `"/workdir2/f"`. |
| Sandbox.SiblingOutside | main.py:22 | `"/workdir2/f"` passes the prefix test although it is not within `/workdir`. |
| Sandbox.DoubleSlashExample | main.py:21-23 | `"//workdir/x"` is rejected, because `normpath` keeps both leading slashes. |
| FileTools.Decimal | main.py:49 | `str(n)`: at least one character, all decimal digits, and no leading zero unless it is `"0"` for zero. `FileTools.DecimalRoundTrip` reads it back. |
| FileTools.Dirname | main.py:46 | `os.path.dirname` on a canonical path. It has no contract of its own; see `FileTools.DirnameOf`, `AncestorsOf` and `AcceptedShape`. |
| FileTools.WriteMessage | main.py:49 | The reply of `write_file`. It has no contract of its own; see `FileTools.WriteMessageReports`. |
| FileTools.MakeDirs | main.py:46 | `os.makedirs` of the target's dirname with `exist_ok`. It has no contract of its own; see `FileTools.MakeDirsFrame`, `MakeDirsDone` and `MakeDirsWellFormed`. |
| FileTools.OpenWrite | main.py:47-48 | `open(a, "w")` and the write. It has no contract of its own; see `FileTools.StoreDone` and `StoreFrame`. |
| FileTools.Store | main.py:46-48 | The steps of `write_file` after `_safe_path`. It has no contract of its own; see `FileTools.StoreDone`, `StoreFrame` and `StoreWellFormed`. |
| FileTools.Write | main.py:42-49 | `write_file`. It has no contract of its own; see `FileTools.WriteSucceeds`, `WriteFilesConfined`, `WriteDirsConfined`, `WritePreservesWellFormed` and `WriteThenRead`. |
| FileTools.ReplaceCRLF | main.py:56-57 | `s.replace("\r\n", "\n")`. It has no contract of its own; see `FileTools.ReplaceCRLFWithoutCR` and `UniversalCons`. |
| FileTools.ReplaceCR | main.py:56-57 | `s.replace("\r", "\n")`: the same length, every CR turned into LF, and every other character kept in place. |
| FileTools.Universal | main.py:56-57 | The text `f.read()` returns in text mode. It has no contract of its own; see `FileTools.UniversalNoCR`, `UniversalIdentity`, `UniversalIdempotent` and `UniversalCons`. |
| FileTools.Lookup | main.py:56-57 | `open(a, "r").read()` on a resolved path. It has no contract of its own; see `FileTools.LookupAfterStore` and `WriteThenRead`. |
| FileTools.Read | main.py:52-57 | `read_file`. It has no contract of its own; see `FileTools.WriteThenRead`, `WriteKeepsOtherReads`, `NulPathRejected` and `ReadClimbOut`. |
| FileTools.UniversalNoCR | main.py:56-57 | The text read never holds a carriage return. |
| FileTools.UniversalIdentity | main.py:56-57 | Reading changes the stored text exactly when it holds a carriage return. Both directions are proved. |
| FileTools.UniversalIdempotent | main.py:56-57 | Translating the text read once more changes nothing. |
| FileTools.UniversalCons | main.py:56-57 | The translation read one character at a time: `"\r\n"` gives one `"\n"`, a `"\r"` not followed by `"\n"` gives one `"\n"`, and every other character is kept. |
| FileTools.UniversalCRLFExample | main.py:56-57 | `"x\r\ny"` reads back as `"x\ny"`. |
| FileTools.UniversalCRExample | main.py:56-57 | `"a\rb"` reads back as `"a\nb"`. |
| FileTools.DecimalRoundTrip | main.py:49 | The numeral written for a count reads back as that count. |
| FileTools.AcceptedShape | main.py:45-46 | An accepted path has at least one component, and the first begins with `workdir`. It is not `/` and not among its own ancestors; its dirname is one of them. |
| FileTools.MakeDirsFrame | main.py:46 | `makedirs` changes no file and creates only directories above the target. |
| FileTools.MakeDirsDone | main.py:46 | `makedirs` completes exactly when no directory name above the target holds NUL and no directory above it is a file. It has then created all of them. |
| FileTools.MakeDirsWellFormed | main.py:46 | `makedirs` keeps the filesystem a tree, also when it stops with an error part-way down. |
| PosixPath.JoinContains | main.py:46-47 | A character other than `/` occurs in the `/`-join of components exactly when it occurs in one of them. |
| FileTools.NulInPath | main.py:46-47 | A path holds NUL exactly when one of its components does. |
| FileTools.StoreDone | main.py:46-48 | Once the path is accepted, the file is written exactly when the path holds no NUL, no directory above it is a file and it is not a directory. The file then holds the content, and every directory above it exists. |
| FileTools.StoreFrame | main.py:46-48 | Once the path is accepted, only the file at that path changes, and only directories above it are added. |
| FileTools.LookupAfterStore | main.py:46-48 | A successful `open(b, "r").read()` gives the same text after a write at another path. |
| FileTools.NulPathRejected | main.py:45-57 | A resolved path holding NUL is never written and never read, and no file changes. When no directory above it is a file, both tools raise `ValueError("embedded null byte")`. |
| FileTools.AncestorsInDirs | main.py:46 | When every directory but `/` sits in a directory, as in a tree, every ancestor of a directory is a directory. |
| FileTools.InitialWellFormed | main.py:16 | The fresh container (only `/` and an empty `/workdir`) is a tree. |
| FileTools.SingleDirWellFormed | main.py:16 | `/` with one clean, NUL-free directory below it and no files is a tree. |
| FileTools.WriteThenRead | main.py:42-57 | After a successful `write_file`, `read_file` of the same path returns the content written with its newlines translated. For content without a carriage return, that is exactly the content. |
| FileTools.WriteSucceeds | main.py:45-49 | `write_file` succeeds exactly when all four hold: the path resolves, it holds no NUL, no directory above it is a file, and it is not a directory. On success, the reply is the confirmation message and every directory above the target exists. |
| FileTools.WriteMessageReports | main.py:49 | The reply starts `"Wrote "`, then the numeral of the content's length, which reads back as that length. Then comes `" bytes to "`, and it ends with the caller's path as given. |
| FileTools.WriteFilesConfined | main.py:45-48 | Only the file at the resolved path, which begins with `"/workdir"`, is created or changed. No file disappears, and every other file keeps its content. |
| FileTools.WriteDirsConfined | main.py:45-46 | Every directory `write_file` creates begins with `"/workdir"`. |
| FileTools.WritePreservesWellFormed | main.py:45-48 | `write_file` keeps the filesystem a tree. `/` stays a directory, no path becomes both a file and a directory, and every path keeps its parent directory. |
| FileTools.WriteKeepsOtherReads | main.py:42-57 | A successful read of a path resolving elsewhere returns the same content after a `write_file`. |
| FileTools.WriteToDirectory | main.py:46-47 | Writing to a path that resolves to a directory, such as `""` or `"."` for `/workdir`, fails with `IsADirectoryError` and changes no file. |
| FileTools.ReadClimbOut | main.py:55 | Reading `"../../etc/passwd"` gives the escape error, never file contents. |
| FileTools.Workdir.constructor | main.py:16 | A fresh store holds no files and the directories `/` and `/workdir`, and it is a tree. |
| FileTools.Workdir.WriteFile | main.py:42-49 | The store stays a tree. The new fields and the reply are exactly `Write` of the old state: errors (including the NUL `ValueError`), created directories, the written file and the confirmation. |
| FileTools.Workdir.ReadFile | main.py:52-57 | The reply is `Read` of the current state: the stored text with its newlines translated, or the escape error, the NUL `ValueError`, `IsADirectoryError`, `NotADirectoryError` or `FileNotFoundError`. |
| Session.Role | main.py:102-119 | The role recorded per kind of item. It has no contract of its own; see `Session.ChatSession.Submit`. |
| Session.Content | main.py:102-119 | The markdown recorded per kind of item. It has no contract of its own; see `Session.ChatSession.Submit`. |
| Session.Render | main.py:102-119 | The record appended per item. It has no contract of its own; see `Session.ChatSession.Submit`. |
| Session.ChatSession.constructor | main.py:84-85 | A new session starts with an empty history. |
| Session.ChatSession.Submit | main.py:92-119 | An empty prompt changes nothing. If the run raises, the history gains only the `user` entry. If the run completes, the earlier entries are unchanged, followed by the `user` entry, then exactly one record per new item, in order, each with the role and content its kind calls for. |

## Left out

- The Streamlit page (title, icon, spinner, chat widgets), the render loop at lines 87-89 and the `st.rerun()` at line 129 are display only. The model keeps the history they draw from.
- The `OPENAI_API_KEY` startup check (lines 11-14) is process start-up I/O.
- `execute_command` (lines 27-39) spawns a shell and returns its combined output. That is process I/O with nothing to model beyond passing the text through.
- The agent and `Runner.run` are modelled as a parameter: a function from the prompt and the turn budget `Session.MAX_TURNS` to either the new items or an exception. Enforcing the budget is the runtime's job. The engine's tool dispatch, and its conversion of a tool's exception into text for the engine, happen inside the library.
- `json.dumps(arguments, indent=2)`, `ItemHelpers.text_message_output` and `str(item)` are runtime-computed text. The model takes them as given strings.
- A reasoning item's `raw_item` is an object, and line 116 stores that object itself as the content. The model stands for it with an opaque string.
- The unused `trace_md` list (line 101, read at lines 124-127) never receives an element, so its branch never runs.
- The UTF-8 encoding is not modelled: text is a sequence of Unicode characters, and encoding then decoding it gives it back. Permissions, symbolic links and the host's real directory layout are not modelled. The filesystem is a map plus a directory set that starts as `/` and `/workdir`.
- FileTools.WriteSucceeds: operating-system limits on names (`NAME_MAX`, `PATH_MAX`, `ENAMETOOLONG`), a full disk and permission errors are not modelled, so the model accepts some writes the operating system would refuse.
- FileTools.Workdir.WriteFile: the same operating-system limits are not modelled.
- FileTools.Workdir.ReadFile: the same operating-system limits are not modelled, so an over-long name reads as `FileNotFoundError` rather than `ENAMETOOLONG`.
- Concurrency and interleaving with other sessions or outside processes are not modelled. Each call is atomic.
