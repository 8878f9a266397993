/** The exceptions the filesystem servers catch, and `get_error_message`, which turns one
    into the text a tool returns. Both servers share this code; three of the texts differ
    between them, selected by `Server`. */
module Errors {
  import opened Common

  /** One entry of a pydantic validation error: the first element of its location and its message. */
  datatype FieldError = FieldError(loc: string, msg: string)

  /** An exception value, one constructor per Python class that reaches the handlers. */
  datatype Exc =
    | FileNotFound(reason: string)
    | PermissionDenied(reason: string)
    | IsADirectory
    | NotADirectory
    | FileExists
    | Custom(text: string)
    | Validation(errors: seq<FieldError>)
    | Value(reason: string)
    | Other(reason: string)

  /** The classes `get_error_message` tests with `isinstance`. */
  datatype ExcClass =
    | FileNotFoundError | PermissionError | IsADirectoryError | NotADirectoryError
    | FileExistsError | CustomFileSystemError | ValidationError | ValueError | Exception

  function ClassOf(e: Exc): ExcClass
  {
    match e
    case FileNotFound(_) => FileNotFoundError
    case PermissionDenied(_) => PermissionError
    case IsADirectory => IsADirectoryError
    case NotADirectory => NotADirectoryError
    case FileExists => FileExistsError
    case Custom(_) => CustomFileSystemError
    case Validation(_) => ValidationError
    case Value(_) => ValueError
    case Other(_) => Exception
  }

  /** Python's `isinstance`: `CustomFileSystemError` and pydantic's `ValidationError` are
      subclasses of `ValueError`, and every class is a subclass of `Exception`. */
  predicate IsInstance(e: Exc, c: ExcClass)
  {
    ClassOf(e) == c
    || (c == ValueError && (ClassOf(e) == CustomFileSystemError || ClassOf(e) == ValidationError))
    || c == Exception
  }

  /** Which of the two servers produces the message. */
  datatype Server = ReadServer | WriteServer

  const UnknownPath: string := "Unknown path"
  const ListHint: string := " (List allowed directories for valid paths)"
  /** The message of a `FileNotFoundError` for a missing file or path. */
  const NoSuchFile: string := "No such file or directory"
  const PermissionDeniedText: string := "Permission denied"
  const NotAValidDirectory: string := "Not a valid directory (List allowed directories for valid paths)"
  const NotADirectoryText: string := "Not a directory"
  const IsADirectoryLead: string := "Is a directory: "
  const FileExistsLead: string := "File already exists: "
  const InputValidationLead: string := "Input validation error: "
  const InvalidValueLead: string := "Invalid value: "

  /** `virtual_path or "Unknown path"`: both `None` and the empty string are falsy. */
  function ShownPath(path: Option<string>): string
  {
    if path.Some? && path.value != "" then path.value else UnknownPath
  }

  /** The read server adds a hint to three of its texts. */
  function Hinted(server: Server, text: string): string
  {
    if server == ReadServer then text + ListHint else text
  }

  /** `"; ".join(f"{loc}: {msg}" for each error)`. */
  function ValidationDetails(errors: seq<FieldError>): string
  {
    Join(seq(|errors|, k requires 0 <= k < |errors| => errors[k].loc + ": " + errors[k].msg), "; ")
  }

  /** What follows `"{message}: "` in `get_error_message`: the `isinstance` tests in their
      source order. */
  function Detail(server: Server, path: Option<string>, e: Exc): string
  {
    var p := ShownPath(path);
    if IsInstance(e, FileNotFoundError) then Hinted(server, NoSuchFile) + ": " + p
    else if IsInstance(e, PermissionError) then Hinted(server, PermissionDeniedText) + ": " + p
    else if IsInstance(e, IsADirectoryError) then IsADirectoryLead + p
    else if IsInstance(e, NotADirectoryError) then
      (if server == ReadServer then NotAValidDirectory else NotADirectoryText) + ": " + p
    else if IsInstance(e, FileExistsError) then FileExistsLead + p
    else if IsInstance(e, CustomFileSystemError) then e.text
    else if IsInstance(e, ValidationError) then InputValidationLead + ValidationDetails(e.errors)
    else if IsInstance(e, ValueError) then InvalidValueLead + p
    else p
  }

  /** `get_error_message(message, virtual_path, e)`: every branch starts with `"{message}: "`. */
  function ErrorMessage(server: Server, message: string, path: Option<string>, e: Exc): string
  {
    message + ": " + Detail(server, path, e)
  }

  /** A `CustomFileSystemError` is a `ValueError`, yet it is reported by its own text and not
      as an invalid value, because its test comes first. */
  lemma CustomBeforeValueError(server: Server, message: string, path: Option<string>, e: Exc)
    requires e.Custom?
    ensures IsInstance(e, ValueError)
    ensures ErrorMessage(server, message, path, e) == message + ": " + e.text
  {
    assert Detail(server, path, e) == e.text;
  }

  /** The text that precedes the shown path, for the exceptions whose message ends with it. */
  function Lead(server: Server, e: Exc): string
  {
    match e
    case FileNotFound(_) => Hinted(server, NoSuchFile) + ": "
    case PermissionDenied(_) => Hinted(server, PermissionDeniedText) + ": "
    case IsADirectory => IsADirectoryLead
    case NotADirectory =>
      (if server == ReadServer then NotAValidDirectory else NotADirectoryText) + ": "
    case FileExists => FileExistsLead
    case Value(_) => InvalidValueLead
    case _ => ""
  }

  /** Apart from a `CustomFileSystemError` and a validation failure, the detail is a lead
      followed by the shown path. */
  lemma DetailNamesPath(server: Server, path: Option<string>, e: Exc)
    requires !e.Custom? && !e.Validation?
    ensures Detail(server, path, e) == Lead(server, e) + ShownPath(path)
  {
    var p := ShownPath(path);
    match e {
      case FileNotFound(_) => assert Detail(server, path, e) == Hinted(server, NoSuchFile) + ": " + p;
      case PermissionDenied(_) => assert Detail(server, path, e) == Hinted(server, PermissionDeniedText) + ": " + p;
      case IsADirectory => assert Detail(server, path, e) == IsADirectoryLead + p;
      case NotADirectory =>
      case FileExists => assert Detail(server, path, e) == FileExistsLead + p;
      case Value(_) => assert Detail(server, path, e) == InvalidValueLead + p;
      case Other(_) => assert Lead(server, e) + p == p;
    }
  }

  /** Apart from a `CustomFileSystemError` and a validation failure, every message ends with
      the virtual path, or with "Unknown path" when there is none; a plain `ValueError` is
      reported as an invalid value. */
  lemma ErrorMessageNamesPath(server: Server, message: string, path: Option<string>, e: Exc)
    requires !e.Custom? && !e.Validation?
    ensures ErrorMessage(server, message, path, e) == message + ": " + Lead(server, e) + ShownPath(path)
    ensures e.Value? ==> ErrorMessage(server, message, path, e) == message + ": " + InvalidValueLead + ShownPath(path)
  {
    DetailNamesPath(server, path, e);
    var lead, p := Lead(server, e), ShownPath(path);
    assert (message + ": ") + (lead + p) == (message + ": ") + lead + p;
  }

  /** The two servers' texts differ only for a missing file, a denied permission and a
      path that is not a directory; there the read server's text is the longer one. */
  lemma ServersDifferOnlyInHints(message: string, path: Option<string>, e: Exc)
    ensures (ErrorMessage(ReadServer, message, path, e) == ErrorMessage(WriteServer, message, path, e))
            <==> !(e.FileNotFound? || e.PermissionDenied? || e.NotADirectory?)
  {
    var r := Detail(ReadServer, path, e);
    var w := Detail(WriteServer, path, e);
    if e.FileNotFound? || e.PermissionDenied? || e.NotADirectory? {
      assert |r| > |w|;
    }
  }
}
