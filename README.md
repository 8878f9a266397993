# Filesystem servers and guessing game: a Dafny model

This project models three small Python programs that sit beside a branching-conversation
web application:

- the read-only filesystem server (`filesystem_read-mcp.py`);
- the writing filesystem server (`filesystem_write-mcp.py`);
- a "guess the number" console game (`guess_number.py`).

Both servers publish each allowed real directory under a virtual root: `/data/a`, `/data/b`
and so on. Every tool validates the virtual path it receives before touching a file. The
model covers that sandbox, the shared error-message function, the line-oriented text helpers
(`head_file`, `tail_file`, the regular-expression edit in `apply_edits`) and the tools built
on them: `read_file`, `read_multiple_files`, `write_file`, `edit_file` and `move_file`.

Layout, one module per file:

- `common.dfy`: `Option`/`Result`, and Python's `str.split` and `str.join`.
- `errors.dfy`: the exception classes the handlers test, and `get_error_message`. The two
  servers differ in three texts, so a `Server` value selects them.
- `sandbox.dfy`: the module-level directory tables as the class `Sandbox`. It holds
  `set_allowed_dirs` and `validate_virtual_path`, a loop proved against the function
  `Resolve`. The operating system's path primitives (`expanduser`, `abspath`, `normpath`,
  `realpath`, `dirname`, `exists`) are fields of the parameter `PathOps`.
- `text_files.dfy`: files as a map from real path to stored text. Text-mode reading turns
  `\r\n` and a lone `\r` into `\n`. It also defines the lines a file object yields.
- `edits.dfy`: the text transformation of `apply_edits`.
- `read_server.dfy`: `head_file`, `tail_file`, `read_file`, `read_multiple_files`.
- `write_server.dfy`: the class `FileSystem`, whose `files` field the tools update:
  `write_file`, `apply_edits` with its write-back, `edit_file`, `move_file`. Each tool takes
  the `Sandbox` it validates with, and also its two tables as ghost values, so that its
  contract can state the outcome over those tables.
- `guess_number.dfy`: the game loop. It is a method proved against the function `Run`.
  The target and the typed entries are parameters, and the printed lines come back as a
  trace.

Behaviour of the code that the model follows, where comments or docstrings say otherwise:

- The game's comment at `guess_number.py:27` says "No penalty for invalid input". But
  `int()` raises before `attempts -= 1` runs, and the handler then adds one. So every invalid
  entry adds an attempt. `GuessNumber.AttemptsBookkeeping` and
  `GuessNumber.InvalidEntryBuysAGuess` state this.
- `move_file`'s docstring says the move fails if the destination exists. `os.rename` on
  POSIX replaces an existing file, and the model does the same (`WriteServer.Renamed`).
- When `realpath` raises `FileNotFoundError` for the target, `validate_virtual_path` returns
  the target after checking only its parent (`Sandbox.ResolveConfined`). The default
  non-strict `realpath` does not raise that error, so with it this branch is not reached and
  the resolved target itself is checked.
- The containment test `startswith(d + os.sep) or == d` with `/` as an allowed directory
  admits only `/` and paths beginning with `//` (`Sandbox.RootDirectoryContainsOnlyItself`).
- `apply_edits` in the read-only server is the same code as in the writing server. One model
  (`WriteServer.FileSystem.ApplyEdits`) stands for both.

What the model takes as given:

- The path primitives in `PathOps` are fixed for a whole run. Their answers do not depend on
  which files exist, so a path validates the same way before and after a move
  (`WriteServer.MoveBack` relies on this).
- `validate_virtual_path` and the tools accept whatever tables the sandbox holds, as the
  source does. The facts about roots (`Sandbox.RootsDistinct`, `Sandbox.AtMostOneRootMatches`,
  `Sandbox.ResolveUsesItsRoot`) apply to tables built by the constructor and
  `set_allowed_dirs`, which keep `Sandbox.Valid`.

## Model

| member | source | states |
|---|---|---|
| Common.Split | _mcp_servers/filesystem_read-mcp/filesystem_read-mcp.py:171 | `str.split` with a one-character separator: at least one part; its partners are `Common.JoinSplit` and `Common.SplitJoin` |
| Common.Join | _mcp_servers/filesystem_read-mcp/filesystem_read-mcp.py:182 | `sep.join(parts)`: the parts with the separator between neighbours; its partners are `Common.JoinSplit` and `Common.SplitJoin` |
| Common.JoinSplit | _mcp_servers/filesystem_read-mcp/filesystem_read-mcp.py:171 | joining the parts of `s.split(sep)` with `sep` gives `s` back |
| Common.SplitJoin | _mcp_servers/filesystem_read-mcp/filesystem_read-mcp.py:171 | splitting a join of separator-free parts gives exactly those parts |
| Errors.Detail | _mcp_servers/filesystem_write-mcp/filesystem_write-mcp.py:61-81 | the `isinstance` tests in source order, each giving its text after `"{message}: "`; characterized by `Errors.DetailNamesPath` and `Errors.CustomBeforeValueError` |
| Errors.ErrorMessage | _mcp_servers/filesystem_write-mcp/filesystem_write-mcp.py:59-81 | `get_error_message` for either server: the message, `": "`, then the detail; characterized by `Errors.ErrorMessageNamesPath` and `Errors.ServersDifferOnlyInHints` |
| Errors.CustomBeforeValueError | _mcp_servers/filesystem_write-mcp/filesystem_write-mcp.py:72-79 | a `CustomFileSystemError` is a `ValueError`, yet the message is `"{message}: {text}"`, because its test comes before the `ValueError` branch |
| Errors.DetailNamesPath | _mcp_servers/filesystem_write-mcp/filesystem_write-mcp.py:61-81 | apart from custom and validation errors, the text after `"{message}: "` is the class's lead text followed by the shown path |
| Errors.ErrorMessageNamesPath | _mcp_servers/filesystem_write-mcp/filesystem_write-mcp.py:59-81 | apart from custom and validation errors, every message is `"{message}: "`, then the class's lead text, then the path, with `None` or `""` shown as "Unknown path"; a plain `ValueError` reads "Invalid value: path" |
| Errors.ServersDifferOnlyInHints | _mcp_servers/filesystem_read-mcp/filesystem_read-mcp.py:61-69 | the two servers' messages are equal exactly when the exception is not a missing file, a denied permission or a non-directory |
| Sandbox.AbsoluteDirs | _mcp_servers/filesystem_read-mcp/filesystem_read-mcp.py:29 | the allowed directories are the absolute, user-expanded inputs, one per input |
| Sandbox.RootTable | _mcp_servers/filesystem_read-mcp/filesystem_read-mcp.py:30 | the i-th directory is published under `/data/` + `chr(97 + i)`, one entry per directory; see `Sandbox.RootsDistinct` |
| Sandbox.Inverse | _mcp_servers/filesystem_read-mcp/filesystem_read-mcp.py:31 | the reverse dictionary, a later entry overwriting an earlier one; characterized by `Sandbox.InverseKeys`, `Sandbox.InverseSound` and `Sandbox.InverseComplete` |
| Sandbox.JoinPath | _mcp_servers/filesystem_read-mcp/filesystem_read-mcp.py:39 | POSIX `os.path.join` for one more component: an absolute component replaces the base, otherwise one `/` separates them; see `Sandbox.MappedPathBelow` |
| Sandbox.MappedPath | _mcp_servers/filesystem_read-mcp/filesystem_read-mcp.py:39 | the remainder joined beneath the real directory, or the directory itself when the remainder is empty; see `Sandbox.MappedPathBelow` |
| Sandbox.Confine | _mcp_servers/filesystem_read-mcp/filesystem_read-mcp.py:44-56 | the `realpath` check and its `FileNotFoundError` fallback on the parent; characterized by `Sandbox.ConfineConfined`, `Sandbox.ConfineAccepts`, `Sandbox.ConfineRejects` and `Sandbox.ConfineErrors` |
| Sandbox.Resolve | _mcp_servers/filesystem_read-mcp/filesystem_read-mcp.py:34-56 | `validate_virtual_path` over given tables; `Sandbox.Sandbox.ValidateVirtualPath` computes it, and `Sandbox.ResolveRejectsUnrooted`, `Sandbox.ResolveConfined`, `Sandbox.ResolveErrors`, `Sandbox.ResolveUsesItsRoot`, `Sandbox.ResolveAccepts` and `Sandbox.ResolveRejects` characterize it |
| Sandbox.StripSlashes | _mcp_servers/filesystem_read-mcp/filesystem_read-mcp.py:38 | `lstrip("/")` yields a suffix that does not start with `/`, and everything removed was `/` |
| Sandbox.FindRoot | _mcp_servers/filesystem_read-mcp/filesystem_read-mcp.py:36-42 | the result is the first root the path equals or lies below (root then `/`); `None` exactly when there is no such root |
| Sandbox.Sandbox.constructor | _mcp_servers/filesystem_read-mcp/filesystem_read-mcp.py:21-23 | the three tables start empty and consistent |
| Sandbox.Sandbox.SetAllowedDirs | _mcp_servers/filesystem_read-mcp/filesystem_read-mcp.py:26-31 | the allowed directories become the absolute, user-expanded inputs; directory i gets root `/data/` + `chr(97+i)`; the reverse table is rebuilt from the forward one |
| Sandbox.Sandbox.ValidateVirtualPath | _mcp_servers/filesystem_read-mcp/filesystem_read-mcp.py:34-56 | the for/else loop with `break` and the try/except that follows compute exactly `Resolve` over the current tables |
| Sandbox.RootsDistinct | _mcp_servers/filesystem_read-mcp/filesystem_read-mcp.py:30 | every root is `/data/` and one character, `chr(97 + i)`, and distinct directories get distinct roots |
| Sandbox.AtMostOneRootMatches | _mcp_servers/filesystem_read-mcp/filesystem_read-mcp.py:36-37 | a path matches at most one generated root, so the first match is the only one; `/data/ab` does not match root `/data/a` |
| Sandbox.ResolveUsesItsRoot | _mcp_servers/filesystem_read-mcp/filesystem_read-mcp.py:36-44 | a path matching the i-th root maps beneath the i-th directory: the remainder after the root, without leading slashes, is joined on, made absolute and normalized, then confined |
| Sandbox.InverseKeys | _mcp_servers/filesystem_read-mcp/filesystem_read-mcp.py:31 | the reverse table's keys are exactly the real directories of the forward table |
| Sandbox.InverseSound | _mcp_servers/filesystem_read-mcp/filesystem_read-mcp.py:31 | every entry of the reverse table is an entry of the forward table, read backwards |
| Sandbox.InverseComplete | _mcp_servers/filesystem_write-mcp/filesystem_write-mcp.py:29-31 | with distinct real directories, the reverse table sends each one back to its own root |
| Sandbox.ResolveRejectsUnrooted | _mcp_servers/filesystem_read-mcp/filesystem_read-mcp.py:36-42 | the result is `CustomFileSystemError("Not a valid path ...: path")` exactly when the path matches no root, and that is the only source of a custom error |
| Sandbox.ResolveConfined | _mcp_servers/filesystem_write-mcp/filesystem_write-mcp.py:44-56 | a returned path is at or below an allowed directory; the only exception is a path that does not resolve, whose parent resolves, exists and is at or below one |
| Sandbox.ConfineConfined | _mcp_servers/filesystem_read-mcp/filesystem_read-mcp.py:45-56 | the second half of validation returns either the input's own `realpath`, lying inside an allowed directory, or the input itself when it does not resolve and its existing parent resolves inside one |
| Sandbox.ConfineAccepts | _mcp_servers/filesystem_read-mcp/filesystem_read-mcp.py:45-56 | the second half of validation accepts a target that resolves exactly when it resolves into an allowed directory, returning the resolved path, and accepts an unresolvable target as it is when its parent resolves, exists and lies in an allowed directory |
| Sandbox.ResolveAccepts | _mcp_servers/filesystem_read-mcp/filesystem_read-mcp.py:36-56 | a path under the i-th root is accepted as its resolved target when that lies in an allowed directory (refused with "Access denied" otherwise), and as the mapped target itself when that does not resolve but its existing parent lies in an allowed directory |
| Sandbox.ConfineRejects | _mcp_servers/filesystem_read-mcp/filesystem_read-mcp.py:50-56 | an unresolvable target fails with `realpath`'s "No such file or directory" when its parent does not resolve either, with "Parent directory not found" when the parent resolves but does not exist, and with "Access denied" when the existing parent lies outside every allowed directory |
| Sandbox.ResolveRejects | _mcp_servers/filesystem_read-mcp/filesystem_read-mcp.py:36-56 | the same three failures for a path under the i-th root whose mapped target does not resolve |
| Sandbox.ConfineErrors | _mcp_servers/filesystem_read-mcp/filesystem_read-mcp.py:45-56 | the second half of validation fails only with "Access denied", "Parent directory not found" or `realpath`'s own `FileNotFoundError` |
| Sandbox.ResolveErrors | _mcp_servers/filesystem_read-mcp/filesystem_read-mcp.py:42-56 | validation fails only with the unrooted-path error, "Access denied", "Parent directory not found", or `realpath`'s own `FileNotFoundError` |
| Sandbox.MappedPathBelow | _mcp_servers/filesystem_read-mcp/filesystem_read-mcp.py:38-39 | the remainder is joined beneath the real directory; an empty remainder maps to the directory itself |
| Sandbox.RootDirectoryContainsOnlyItself | _mcp_servers/filesystem_read-mcp/filesystem_read-mcp.py:47 | with `/` allowed, the containment test admits only `/` and paths starting with `//`, so not `/etc` |
| TextFiles.Lines | _mcp_servers/filesystem_read-mcp/filesystem_read-mcp.py:88 | the lines iterating a text file yields, each with its line feed; characterized by `TextFiles.LinesWellFormed`, `TextFiles.ConcatLines` and `TextFiles.LinesOfConcat` |
| TextFiles.Concat | _mcp_servers/filesystem_read-mcp/filesystem_read-mcp.py:88 | `"".join(lines)`; see `TextFiles.ConcatLines` |
| TextFiles.TextMode | _mcp_servers/filesystem_read-mcp/filesystem_read-mcp.py:159-160 | text read in text mode holds no carriage return |
| TextFiles.TextModeKeepsPlainText | _mcp_servers/filesystem_read-mcp/filesystem_read-mcp.py:159-160 | text without carriage returns reads back unchanged |
| TextFiles.ReadText | _mcp_servers/filesystem_read-mcp/filesystem_read-mcp.py:159-160 | the read succeeds exactly when the file exists, and the text has no carriage return |
| TextFiles.ConcatLines | _mcp_servers/filesystem_read-mcp/filesystem_read-mcp.py:88 | the lines a file yields, joined, are the whole text |
| TextFiles.LinesWellFormed | _mcp_servers/filesystem_read-mcp/filesystem_read-mcp.py:88 | each yielded line is non-empty, holds `\n` only at its end, and all but the last end with `\n` |
| TextFiles.LinesOfConcat | _mcp_servers/filesystem_read-mcp/filesystem_read-mcp.py:94 | well-formed lines are exactly the lines of their concatenation |
| Edits.ApplyEdit | _mcp_servers/filesystem_write-mcp/filesystem_write-mcp.py:103-104 | one MULTILINE `re.sub` of the escaped old text at a line start, followed by a line break or the end; characterized line by line by `Edits.EditLineByLine` |
| Edits.ApplyAll | _mcp_servers/filesystem_write-mcp/filesystem_write-mcp.py:102-104 | the edits applied one after another in list order; `Edits.ApplyEditsToText` computes it, `Edits.ApplyAllAppend` and `Edits.EditsWithoutMatch` characterize it |
| Edits.ApplyEditsToText | _mcp_servers/filesystem_write-mcp/filesystem_write-mcp.py:101-104 | the loop rebinding `new_content` once per edit yields all edits applied in list order |
| Edits.EditLineByLine | _mcp_servers/filesystem_write-mcp/filesystem_write-mcp.py:103-104 | with a one-line replacement, the line count is kept; a line becomes `newText` plus what followed `oldText` exactly when it matches, and other lines are unchanged |
| Edits.EditWithoutMatch | _mcp_servers/filesystem_write-mcp/filesystem_write-mcp.py:103-104 | an edit whose old text matches no line leaves the content unchanged |
| Edits.EditsWithoutMatch | _mcp_servers/filesystem_write-mcp/filesystem_write-mcp.py:102-104 | edits none of which matches any line leave the content unchanged |
| Edits.ApplyAllAppend | _mcp_servers/filesystem_write-mcp/filesystem_write-mcp.py:102-104 | applying a list of edits is applying its first part and then the rest |
| Edits.EditSettles | _mcp_servers/filesystem_write-mcp/filesystem_write-mcp.py:103-104 | on text-mode content, repeating an edit whose replacement has no line break changes nothing |
| ReadServer.HeadText | _mcp_servers/filesystem_read-mcp/filesystem_read-mcp.py:88 | the lines with index below n, joined; see `ReadServer.HeadKeepsFirstLines` |
| ReadServer.HeadFile | _mcp_servers/filesystem_read-mcp/filesystem_read-mcp.py:85-88 | `head_file`: opens the file, failing when it is missing, then keeps the first n lines |
| ReadServer.TailText | _mcp_servers/filesystem_read-mcp/filesystem_read-mcp.py:94 | what `deque(f, maxlen=n)` holds, joined, or its `ValueError` for a negative n; see `ReadServer.TailKeepsLastLines` |
| ReadServer.TailFile | _mcp_servers/filesystem_read-mcp/filesystem_read-mcp.py:91-94 | `tail_file`: opens the file, failing when it is missing, then keeps the last n lines |
| ReadServer.ReadFile | _mcp_servers/filesystem_read-mcp/filesystem_read-mcp.py:144-162 | `read_file`: validate, refuse head with tail, then head, tail or the whole text, any failure as the "Error reading" message; characterized by `ReadServer.ReadFileChecks` and `ReadServer.ReadFileHeadOrTail` |
| ReadServer.HeadKeepsFirstLines | _mcp_servers/filesystem_read-mcp/filesystem_read-mcp.py:85-88 | `head_file` yields the first n lines in order, a prefix of the text; the whole text when n is at least the line count, and nothing when n is at most 0 |
| ReadServer.TailKeepsLastLines | _mcp_servers/filesystem_read-mcp/filesystem_read-mcp.py:91-94 | `tail_file` yields the last n lines in order, a suffix of the text, and the whole text when n is at least the line count; a negative n raises `ValueError` |
| ReadServer.TextEndsWithLines | _mcp_servers/filesystem_read-mcp/filesystem_read-mcp.py:91-94 | the lines of a file from any position on form a suffix of its text and read back as the same lines |
| ReadServer.HeadThenTail | _mcp_servers/filesystem_read-mcp/filesystem_read-mcp.py:85-94 | the head of n lines followed by the tail of the remaining lines is the whole text |
| ReadServer.ReadFileChecks | _mcp_servers/filesystem_read-mcp/filesystem_read-mcp.py:150-162 | `read_file` validates the path first, then rejects head with tail ("Specify either head or tail, not both"); with neither it returns the whole text of an existing file, and the "Error reading" message with "No such file or directory" for a missing one |
| ReadServer.ReadFileHeadOrTail | _mcp_servers/filesystem_read-mcp/filesystem_read-mcp.py:150-158 | `read_file` with only `head` returns the file's first lines, with only `tail` its last lines; a missing file or a negative tail gives the "Error reading" message for that failure |
| ReadServer.Distinct | _mcp_servers/filesystem_read-mcp/filesystem_read-mcp.py:171-176 | the entries the loop reports, in order; characterized by `ReadServer.DistinctReportsEachOnce` and `ReadServer.DistinctInFirstAppearanceOrder` |
| ReadServer.Section | _mcp_servers/filesystem_read-mcp/filesystem_read-mcp.py:175-181 | one entry's section; spelled out by `ReadServer.SectionContents` |
| ReadServer.Sections | _mcp_servers/filesystem_read-mcp/filesystem_read-mcp.py:171-181 | the sections of a list of entries, one each, in order; computed by `ReadServer.ReadMultipleFiles` |
| ReadServer.FirstIndex | _mcp_servers/filesystem_read-mcp/filesystem_read-mcp.py:171-176 | the position of an entry's first appearance |
| ReadServer.DistinctReportsEachOnce | _mcp_servers/filesystem_read-mcp/filesystem_read-mcp.py:171-176 | the reported paths are exactly the non-empty entries, each reported once |
| ReadServer.DistinctInFirstAppearanceOrder | _mcp_servers/filesystem_read-mcp/filesystem_read-mcp.py:171-176 | the reported paths come in the order of their first appearance |
| ReadServer.ReadSection | _mcp_servers/filesystem_read-mcp/filesystem_read-mcp.py:175-181 | the loop body for one new entry validates and then reads, producing exactly `Section`, whose text `ReadServer.SectionContents` spells out |
| ReadServer.SectionContents | _mcp_servers/filesystem_read-mcp/filesystem_read-mcp.py:175-181 | a valid path to an existing file gives `### path:`, a line feed, the text-mode content between two fence lines of three backquotes; a validation failure or a missing file gives `### path:`, a line feed and the "Error reading" message for that error |
| ReadServer.ReadMultipleFiles | _mcp_servers/filesystem_read-mcp/filesystem_read-mcp.py:165-184 | the loop over `paths.split("\n")` with its `seen` set returns the sections of the distinct non-empty entries, joined by line feeds |
| WriteServer.EditOutcome | _mcp_servers/filesystem_write-mcp/filesystem_write-mcp.py:97-104 | `apply_edits` up to the diff: validation, then the text-mode read, then the edits; characterized by `WriteServer.EditOutcomeFacts` |
| WriteServer.FilesAfterEdit | _mcp_servers/filesystem_write-mcp/filesystem_write-mcp.py:106-108 | the edited content is written back only on success and not on a dry run; the state `WriteServer.FileSystem.ApplyEdits` leaves |
| WriteServer.EditReply | _mcp_servers/filesystem_write-mcp/filesystem_write-mcp.py:165-169 | `edit_file`'s reply: the change, or the "Error editing" message for the path; see `WriteServer.EditFailureNamesPath` |
| WriteServer.Move | _mcp_servers/filesystem_write-mcp/filesystem_write-mcp.py:190-192 | `move_file`'s validations, source first, then the rename; characterized by `WriteServer.MoveValidatesBoth` and `WriteServer.MoveBack` |
| WriteServer.Rename | _mcp_servers/filesystem_write-mcp/filesystem_write-mcp.py:190-192 | the first validation failure, a missing source, or the renamed files |
| WriteServer.FilesAfterMove | _mcp_servers/filesystem_write-mcp/filesystem_write-mcp.py:192 | the renamed files on success, the old files on any failure |
| WriteServer.MoveReply | _mcp_servers/filesystem_write-mcp/filesystem_write-mcp.py:193-195 | "Moved s to d", or the "Error moving" message for the source |
| WriteServer.FileSystem.WriteFile | _mcp_servers/filesystem_write-mcp/filesystem_write-mcp.py:143-155 | on a valid path the file gets exactly the content and the reply is "Wrote to path"; otherwise nothing changes and the reply is the "Error writing" message |
| WriteServer.FileSystem.ApplyEdits | _mcp_servers/filesystem_write-mcp/filesystem_write-mcp.py:97-109 | the result is the file as read and the edited content; exactly that content is written back unless it is a dry run; a failure or a dry run changes nothing |
| WriteServer.FileSystem.EditFile | _mcp_servers/filesystem_write-mcp/filesystem_write-mcp.py:158-169 | the edits are forwarded in order with the same flag, and any failure becomes the "Error editing" message for the path |
| WriteServer.FileSystem.MoveFile | _mcp_servers/filesystem_write-mcp/filesystem_write-mcp.py:183-195 | source then destination are validated before the rename; the reply is "Moved s to d" or the "Error moving" message for the source |
| WriteServer.WrittenTextReadsBack | _mcp_servers/filesystem_write-mcp/filesystem_write-mcp.py:151-152 | a written file reads back as its text-mode content, exactly as written when it has no carriage return; other files read as before |
| WriteServer.EditOutcomeFacts | _mcp_servers/filesystem_write-mcp/filesystem_write-mcp.py:99-104 | an invalid path fails with its validation error before any read; success means the path is valid and the file exists; the new content is all edits applied to the text read, and equals it when no line matches |
| WriteServer.EditFailureNamesPath | _mcp_servers/filesystem_write-mcp/filesystem_write-mcp.py:168-169 | an edit failure reads "Error editing: " + lead text + the path |
| WriteServer.MoveValidatesBoth | _mcp_servers/filesystem_write-mcp/filesystem_write-mcp.py:190-195 | a source failure is reported first, then a destination failure, both against the source path; the move succeeds exactly when both validate and the source exists |
| WriteServer.Renamed | _mcp_servers/filesystem_write-mcp/filesystem_write-mcp.py:192 | the destination gets the source's text, even over an existing file; the source disappears unless it is the destination; other files are untouched |
| WriteServer.MoveBack | _mcp_servers/filesystem_write-mcp/filesystem_write-mcp.py:190-193 | moving to a free destination and back restores every file |
| GuessNumber.Run | _mcp_filesystem/read_write/guess_number.py:12-30 | the game from a given state over the remaining entries: the trace, the ending and the entries read; at most all entries are read |
| GuessNumber.Play | _mcp_filesystem/read_write/guess_number.py:7-30 | the game from 7 attempts; `GuessNumber.GuessTheNumber` computes it and the lemmas below characterize it |
| GuessNumber.Feedback | _mcp_filesystem/read_write/guess_number.py:17-23 | congratulations exactly on the target, "Too low" exactly below it, "Too high" exactly above it |
| GuessNumber.GuessTheNumber | _mcp_filesystem/read_write/guess_number.py:4-30 | the `while` loop over `attempts` and `guessed` prints the opening line, then exactly the trace and ending of the game from 7 attempts |
| GuessNumber.AttemptsBookkeeping | _mcp_filesystem/read_write/guess_number.py:14-27 | from any state, the final count is the starting count, less one per valid guess read, plus one per invalid entry read |
| GuessNumber.GameAttempts | _mcp_filesystem/read_write/guess_number.py:7-27 | for a whole game: 7, less the valid guesses, plus the invalid entries |
| GuessNumber.ValidGuessesBounded | _mcp_filesystem/read_write/guess_number.py:12-15 | with only valid entries, no more entries are read than there are attempts left |
| GuessNumber.AtMostSevenGuesses | _mcp_filesystem/read_write/guess_number.py:7-15 | with only valid entries, at most 7 are read, and with 7 or more the game is won or lost rather than left waiting for input |
| GuessNumber.OutOfInputReadsAll | _mcp_filesystem/read_write/guess_number.py:12-14 | `input` fails only after every entry has been read |
| GuessNumber.ValidGuessesStop | _mcp_filesystem/read_write/guess_number.py:12-19 | with at least as many valid entries left as attempts, the game ends by a win or by running out of attempts |
| GuessNumber.WonOnTarget | _mcp_filesystem/read_write/guess_number.py:12-19 | from any running state, the game is won exactly when the last entry read is the target, and no earlier entry read was |
| GuessNumber.GameWonOnTarget | _mcp_filesystem/read_write/guess_number.py:12-19 | for a whole game: won exactly when the last entry read is the target; a correct guess ends the loop |
| GuessNumber.GameOverIffLost | _mcp_filesystem/read_write/guess_number.py:29-30 | "Game over" is printed exactly when the loop ends without a correct guess, and then it is the last line |
| GuessNumber.WrongGuessesExhaust | _mcp_filesystem/read_write/guess_number.py:12-23 | wrong valid guesses use up the attempts: the game is lost after exactly as many as were left, with 0 left |
| GuessNumber.InvalidEntryBuysAGuess | _mcp_filesystem/read_write/guess_number.py:25-27 | with target 50, an invalid entry followed by wrong guesses lets 8 valid guesses in, not 7 |

## Left out

- The OS path functions `expanduser`, `abspath`, `normpath`, `realpath`, `dirname` and `exists` are parameters. Their behaviour (symbolic links, the current directory, the user's home) is not modelled. `realpath` may raise `FileNotFoundError` in the model, as the handler expects. The default non-strict `realpath` of current Python never raises `FileNotFoundError`, and then that handler never runs.
- Sandbox.ResolveErrors: does not list the `ValueError` that `realpath` raises for a path holding a NUL character (for example `/data/a/x` followed by `\0`), which `get_error_message` reports as "Invalid value". `PathOps.realPath` answers only a path or `FileNotFoundError`, so the model cannot produce it.
- Sandbox.ConfineErrors: does not list that same `ValueError` of `realpath`, for the same reason.
- Sandbox.Sandbox.SetAllowedDirs: requires at most 0xD800 - 97 directories. Beyond that, `chr(97 + i)` reaches the surrogate range and is not a Dafny character.
- Files are a map from real path to text. Directories, permissions, encodings and the `OSError`s of `open`, `write` and `rename` (`IsADirectoryError`, `PermissionError`, a missing parent on write) are not modelled. Writing stores the content as given, with no newline translation, as on POSIX.
- `difflib.unified_diff`: `apply_edits` returns the pair of texts it compares (`WriteServer.Change`), not the diff text.
- Edits.ApplyEdit: requires an `oldText` without a line feed. A multi-line pattern can match across lines, and the model does not cover that case.
- Edits.ApplyAll: requires every `oldText` to have no line feed, for the reason given for `Edits.ApplyEdit`.
- Edits.ApplyEditsToText: requires every `oldText` to have no line feed, for the reason given for `Edits.ApplyEdit`.
- WriteServer.FileSystem.ApplyEdits: requires every `oldText` to have no line feed, for the reason given for `Edits.ApplyEdit`.
- WriteServer.FileSystem.EditFile: requires every `oldText` to have no line feed, for the reason given for `Edits.ApplyEdit`.
- `edit_file`'s argument validation by pydantic happens in the server framework before the tool runs, so it is not modelled. `Errors.ErrorMessage` still covers the `ValidationError` branch.
- `read_multiple_files`' outer handler ("Error reading multiple files") is not modelled. Splitting a string cannot raise, so only the inner handler is reachable.
- `move_file` on directories, and `os.rename` across file systems, are not modelled.
- The other tools are not modelled: `list_directory`, `directory_tree`, `search_files` (with `list_files_recursive`, `os.walk` and `fnmatch`), `get_file_info` (`os.stat`, `datetime`), `list_allowed_directories` and `create_directory` (`os.makedirs`).
- The FastMCP server setup, tool registration, command-line handling and start-up printing are not modelled.
- `main.py` (HTTP server, threads, proxy, signals), `fetch-mcp.py`, `datetime-mcp.py` and `file_watcher-mcp.py` are not modelled. They are network, clock and polling I/O.
- The game's `random.randint(1, 100)` is the parameter `target`. Its `input` is the sequence of entries, with `None` for an entry `int()` rejects; `print` is the returned trace. The emoji and exact wording of the printed lines are represented by `Event` values.
- The branching conversation tree of the web application is not part of this model. Its JavaScript source is not among the files modelled.
