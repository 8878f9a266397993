/** The tools of the filesystem server that change files: `write_file`, `edit_file` (through
    `apply_edits`) and `move_file`. The regular files under the allowed directories are the
    state; each tool validates its virtual paths first and turns every failure into a message. */
module WriteServer {
  import opened Common
  import opened Errors
  import opened Sandbox
  import opened TextFiles
  import opened Edits

  const ErrorWriting: string := "Error writing"
  const ErrorEditing: string := "Error editing"
  const ErrorMoving: string := "Error moving"
  const WroteTo: string := "Wrote to "
  const MovedLead: string := "Moved "
  const MovedTo: string := " to "

  /** The two texts `apply_edits` compares: the file as read, and the content after the edits.
      The tool replies with a unified diff of these two. */
  datatype Change = Change(before: string, after: string)

  /** What `apply_edits` computes for a path: the path is validated, the file read in text
      mode, then every edit applied in list order. */
  function EditOutcome(os: PathOps, allowed: seq<string>, table: seq<(string, string)>, files: Files, path: string, edits: seq<Edit>): Result<Change, Exc>
    requires SingleLine(edits)
  {
    match Resolve(os, allowed, table, path)
    case Err(e) => Err(e)
    case Ok(realPath) =>
      match ReadText(files, realPath)
      case Err(e) => Err(e)
      case Ok(content) => Ok(Change(content, ApplyAll(content, edits)))
  }

  /** The files after `apply_edits`: the edited content replaces the file's text, unless the
      edit failed or this is a dry run. */
  function FilesAfterEdit(os: PathOps, allowed: seq<string>, table: seq<(string, string)>, files: Files, path: string, edits: seq<Edit>, dryRun: bool): Files
    requires SingleLine(edits)
  {
    match EditOutcome(os, allowed, table, files, path, edits)
    case Err(_) => files
    case Ok(change) => if dryRun then files else files[Resolve(os, allowed, table, path).value := change.after]
  }

  /** `edit_file`'s reply: the change, or the failure reported against the path. */
  function EditReply(r: Result<Change, Exc>, path: string): Result<Change, string>
  {
    match r
    case Ok(change) => Ok(change)
    case Err(e) => Err(ErrorMessage(WriteServer, ErrorEditing, Some(path), e))
  }

  /** What `move_file` does to the files: both paths are validated, source first, and then
      `os.rename` moves the source's text to the destination, replacing any file there. */
  function Move(os: PathOps, allowed: seq<string>, table: seq<(string, string)>, files: Files, source: string, destination: string): Result<Files, Exc>
  {
    Rename(files, Resolve(os, allowed, table, source), Resolve(os, allowed, table, destination))
  }

  /** `os.rename` between two validated real paths, or the first validation failure. */
  function Rename(files: Files, realSource: Result<string, Exc>, realDestination: Result<string, Exc>): Result<Files, Exc>
  {
    match realSource
    case Err(e) => Err(e)
    case Ok(rs) =>
      match realDestination
      case Err(e) => Err(e)
      case Ok(rd) =>
        if rs !in files then Err(FileNotFound(NoSuchFile))
        else Ok(Renamed(files, rs, rd))
  }

  /** The files once `os.rename` has moved an existing source: the destination gets the
      source's text, replacing any file there; the source disappears unless it is the
      destination; every other file is left alone. */
  function Renamed(files: Files, realSource: string, realDestination: string): (moved: Files)
    requires realSource in files
    ensures realDestination in moved && moved[realDestination] == files[realSource]
    ensures realSource != realDestination ==> realSource !in moved
    ensures forall p :: p != realSource && p != realDestination ==> (p in moved <==> p in files)
    ensures forall p :: p != realSource && p != realDestination && p in files ==> moved[p] == files[p]
  {
    (files - {realSource})[realDestination := files[realSource]]
  }

  /** The files after `move_file`: the moved files, or the files as they were. */
  function FilesAfterMove(r: Result<Files, Exc>, files: Files): Files
  {
    if r.Ok? then r.value else files
  }

  /** `move_file`'s reply: any failure, from either validation or the rename, is reported
      against the source path. */
  function MoveReply(r: Result<Files, Exc>, source: string, destination: string): string
  {
    match r
    case Ok(_) => MovedLead + source + MovedTo + destination
    case Err(e) => ErrorMessage(WriteServer, ErrorMoving, Some(source), e)
  }

  /** The regular files the server can reach, by real path.

      Each tool validates with the `Sandbox` it is given. It also receives that sandbox's two
      tables as ghost values, equal to its fields, and states its outcome over those values:
      the contract then reads no field of another object, which keeps the proofs small. */
  class FileSystem {
    var files: Files

    constructor (initial: Files)
      ensures files == initial
    {
      files := initial;
    }

    /** `write_file(path, content)`: validates the path, then creates or overwrites the file. */
    method WriteFile(sb: Sandbox, ghost allowed: seq<string>, ghost table: seq<(string, string)>, os: PathOps, path: string, content: string) returns (reply: string)
      requires sb.allowedRealDirs == allowed && sb.virtualToReal == table
      modifies this
      ensures Resolve(os, allowed, table, path).Ok? ==>
        files == old(files)[Resolve(os, allowed, table, path).value := content]
        && reply == WroteTo + path
      ensures Resolve(os, allowed, table, path).Err? ==>
        files == old(files)
        && reply == ErrorMessage(WriteServer, ErrorWriting, Some(path), Resolve(os, allowed, table, path).error)
    {
      var r := sb.ValidateVirtualPath(os, path);
      assert r == Resolve(os, allowed, table, path);
      match r {
        case Err(e) =>
          reply := ErrorMessage(WriteServer, ErrorWriting, Some(path), e);
        case Ok(realPath) =>
          files := files[realPath := content];
          reply := WroteTo + path;
      }
    }

    /** `apply_edits(path, edits, dry_run)`: validates, reads, edits in list order, and writes
        exactly the edited content back unless this is a dry run. */
    method ApplyEdits(sb: Sandbox, ghost allowed: seq<string>, ghost table: seq<(string, string)>, os: PathOps, path: string, edits: seq<Edit>, dryRun: bool) returns (r: Result<Change, Exc>)
      requires sb.allowedRealDirs == allowed && sb.virtualToReal == table
      requires SingleLine(edits)
      modifies this
      ensures r == EditOutcome(os, allowed, table, old(files), path, edits)
      ensures files == FilesAfterEdit(os, allowed, table, old(files), path, edits, dryRun)
    {
      ghost var expected := EditOutcome(os, allowed, table, files, path, edits);
      ghost var expectedFiles := FilesAfterEdit(os, allowed, table, files, path, edits, dryRun);
      var v := sb.ValidateVirtualPath(os, path);
      assert v == Resolve(os, allowed, table, path);
      if v.Err? {
        r := Err(v.error);
      } else {
        var realPath := v.value;
        var read := ReadText(files, realPath);
        if read.Err? {
          r := Err(read.error);
        } else {
          var content := read.value;
          var newContent := ApplyEditsToText(content, edits);
          if !dryRun {
            files := files[realPath := newContent];
          }
          r := Ok(Change(content, newContent));
        }
      }
      assert r == expected && files == expectedFiles;
    }

    /** `edit_file(path, edits, dryRun)`: forwards the edits, in order, with the same flag. */
    method EditFile(sb: Sandbox, ghost allowed: seq<string>, ghost table: seq<(string, string)>, os: PathOps, path: string, edits: seq<Edit>, dryRun: bool) returns (reply: Result<Change, string>)
      requires sb.allowedRealDirs == allowed && sb.virtualToReal == table
      requires SingleLine(edits)
      modifies this
      ensures reply == EditReply(EditOutcome(os, allowed, table, old(files), path, edits), path)
      ensures files == FilesAfterEdit(os, allowed, table, old(files), path, edits, dryRun)
    {
      var r := ApplyEdits(sb, allowed, table, os, path, edits, dryRun);
      match r {
        case Ok(change) => reply := Ok(change);
        case Err(e) => reply := Err(ErrorMessage(WriteServer, ErrorEditing, Some(path), e));
      }
    }

    /** `move_file(source, destination)`: validates the source, then the destination, then
        renames; the reply is formatted from the outcome. */
    method MoveFile(sb: Sandbox, ghost allowed: seq<string>, ghost table: seq<(string, string)>, os: PathOps, source: string, destination: string) returns (reply: string)
      requires sb.allowedRealDirs == allowed && sb.virtualToReal == table
      modifies this
      ensures reply == MoveReply(Move(os, allowed, table, old(files), source, destination), source, destination)
      ensures files == FilesAfterMove(Move(os, allowed, table, old(files), source, destination), old(files))
    {
      ghost var before := files;
      ghost var expected := Move(os, allowed, table, files, source, destination);
      var outcome: Result<Files, Exc>;
      var s := sb.ValidateVirtualPath(os, source);
      if s.Err? {
        outcome := Err(s.error);
      } else {
        var d := sb.ValidateVirtualPath(os, destination);
        if d.Err? {
          outcome := Err(d.error);
        } else if s.value !in files {
          outcome := Err(FileNotFound(NoSuchFile));
        } else {
          outcome := Ok(Renamed(files, s.value, d.value));
        }
        assert outcome == Rename(before, s, d);
      }
      assert outcome == expected;
      if outcome.Ok? {
        files := outcome.value;
      }
      assert outcome.Ok? ==> files == outcome.value;
      assert outcome.Err? ==> files == before;
      assert files == FilesAfterMove(expected, before);
      reply := MoveReply(outcome, source, destination);
    }
  }

  /** A written file reads back as its content in text mode, and exactly as written when the
      content has no carriage return; no other file changes. */
  lemma WrittenTextReadsBack(files: Files, realPath: string, content: string)
    ensures ReadText(files[realPath := content], realPath) == Ok(TextMode(content))
    ensures '\r' !in content ==> ReadText(files[realPath := content], realPath) == Ok(content)
    ensures forall p :: p != realPath ==> ReadText(files[realPath := content], p) == ReadText(files, p)
  {
    if '\r' !in content {
      TextModeKeepsPlainText(content);
    }
  }

  /** A successful edit starts from the file as read and ends with every edit applied in
      order; when no line matches any old text, the content comes out unchanged. A path
      that does not validate fails with the validation error, before the file is read. */
  lemma EditOutcomeFacts(os: PathOps, allowed: seq<string>, table: seq<(string, string)>, files: Files, path: string, edits: seq<Edit>)
    requires SingleLine(edits)
    ensures Resolve(os, allowed, table, path).Err? ==>
      EditOutcome(os, allowed, table, files, path, edits) == Err(Resolve(os, allowed, table, path).error)
    ensures EditOutcome(os, allowed, table, files, path, edits).Ok? <==>
      Resolve(os, allowed, table, path).Ok? && Resolve(os, allowed, table, path).value in files
    ensures EditOutcome(os, allowed, table, files, path, edits).Ok? ==>
      var c := EditOutcome(os, allowed, table, files, path, edits).value;
      c.before == TextMode(files[Resolve(os, allowed, table, path).value])
      && c.after == ApplyAll(c.before, edits)
      && ((forall e, k :: e in edits && 0 <= k < |Split(c.before, '\n')| ==> !LineMatches(Split(c.before, '\n')[k], e.oldText))
          ==> c.after == c.before)
  {
    var r := EditOutcome(os, allowed, table, files, path, edits);
    if r.Ok? {
      var c := r.value;
      if forall e, k :: e in edits && 0 <= k < |Split(c.before, '\n')| ==> !LineMatches(Split(c.before, '\n')[k], e.oldText) {
        EditsWithoutMatch(c.before, edits);
      }
    }
  }

  /** `edit_file` reports every failure as `"Error editing: ..."` naming the path. */
  lemma EditFailureNamesPath(r: Result<Change, Exc>, path: string)
    requires r.Err? && !r.error.Custom? && !r.error.Validation?
    ensures EditReply(r, path) == Err(ErrorEditing + ": " + Lead(WriteServer, r.error) + ShownPath(Some(path)))
  {
    ErrorMessageNamesPath(WriteServer, ErrorEditing, Some(path), r.error);
  }

  /** Both paths are validated before anything is renamed: a source that fails validation is
      reported first, then a destination that fails, and either way against the source path. */
  lemma MoveValidatesBoth(os: PathOps, allowed: seq<string>, table: seq<(string, string)>, files: Files, source: string, destination: string)
    ensures Resolve(os, allowed, table, source).Err? ==>
      MoveReply(Move(os, allowed, table, files, source, destination), source, destination)
        == ErrorMessage(WriteServer, ErrorMoving, Some(source), Resolve(os, allowed, table, source).error)
    ensures Resolve(os, allowed, table, source).Ok? && Resolve(os, allowed, table, destination).Err? ==>
      MoveReply(Move(os, allowed, table, files, source, destination), source, destination)
        == ErrorMessage(WriteServer, ErrorMoving, Some(source), Resolve(os, allowed, table, destination).error)
    ensures Move(os, allowed, table, files, source, destination).Ok? <==>
      Resolve(os, allowed, table, source).Ok?
      && Resolve(os, allowed, table, destination).Ok?
      && Resolve(os, allowed, table, source).value in files
  {
  }

  /** Renaming to a free name and back restores the map. */
  lemma RenameBack(files: Files, realSource: string, realDestination: string)
    requires realSource in files
    requires realDestination !in files || realDestination == realSource
    ensures var moved := Renamed(files, realSource, realDestination);
      Renamed(moved, realDestination, realSource) == files
  {
    var back := Renamed(Renamed(files, realSource, realDestination), realDestination, realSource);
    assert back.Keys == files.Keys;
  }

  /** Moving a file to a free destination and back restores every file. */
  lemma MoveBack(os: PathOps, allowed: seq<string>, table: seq<(string, string)>, files: Files, source: string, destination: string)
    requires Move(os, allowed, table, files, source, destination).Ok?
    requires Resolve(os, allowed, table, destination).value !in files
      || Resolve(os, allowed, table, destination) == Resolve(os, allowed, table, source)
    ensures Move(os, allowed, table, Move(os, allowed, table, files, source, destination).value, destination, source) == Ok(files)
  {
    var rs := Resolve(os, allowed, table, source).value;
    var rd := Resolve(os, allowed, table, destination).value;
    assert Move(os, allowed, table, files, source, destination).value == Renamed(files, rs, rd);
    RenameBack(files, rs, rd);
  }
}
