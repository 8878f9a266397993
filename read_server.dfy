/** The read-only filesystem server's tools that compute on text: `read_file` with its
    head and tail options, and `read_multiple_files`. */
module ReadServer {
  import opened Common
  import opened Errors
  import opened Sandbox
  import opened TextFiles

  const ErrorReading: string := "Error reading"
  const BothHeadAndTail: string := "Specify either head or tail, not both"
  /** The text of the `ValueError` that `deque` raises for a negative `maxlen`. */
  const NegativeMaxlen: string := "maxlen must be non-negative"

  /** How many lines `i < n` lets through out of `count`. */
  function HeadCount(count: nat, n: int): nat
  {
    if n <= 0 then 0 else if n < count then n else count
  }

  /** `"".join(line for i, line in enumerate(f) if i < n)`. */
  function HeadText(text: string, n: int): string
  {
    var lines := Lines(text);
    Concat(lines[..HeadCount(|lines|, n)])
  }

  /** How many of `count` lines a `deque` with `maxlen` n ends up holding. */
  function Kept(count: nat, n: nat): nat
  {
    if n < count then n else count
  }

  /** `"".join(deque(f, maxlen=n))`: the last `n` lines; a negative `maxlen` raises `ValueError`. */
  function TailText(text: string, n: int): Result<string, Exc>
  {
    if n < 0 then Err(Value(NegativeMaxlen))
    else
      var lines := Lines(text);
      Ok(Concat(lines[|lines| - Kept(|lines|, n)..]))
  }

  /** `head_file(real_path, n)`: the file is opened before any line is read. */
  function HeadFile(files: Files, realPath: string, n: int): Result<string, Exc>
  {
    match ReadText(files, realPath)
    case Err(e) => Err(e)
    case Ok(text) => Ok(HeadText(text, n))
  }

  /** `tail_file(real_path, n)`: the file is opened before the `deque` is built. */
  function TailFile(files: Files, realPath: string, n: int): Result<string, Exc>
  {
    match ReadText(files, realPath)
    case Err(e) => Err(e)
    case Ok(text) => TailText(text, n)
  }

  /** `read_file(path, head, tail)`: the path is validated first, then the two options are
      checked, then the file is read whole, by head or by tail; any failure becomes a message. */
  function ReadFile(os: PathOps, allowed: seq<string>, table: seq<(string, string)>, files: Files, path: string, head: Option<int>, tail: Option<int>): string
  {
    match Resolve(os, allowed, table, path)
    case Err(e) => ErrorMessage(ReadServer, ErrorReading, Some(path), e)
    case Ok(realPath) =>
      if head.Some? && tail.Some? then ErrorMessage(ReadServer, ErrorReading, Some(path), Custom(BothHeadAndTail))
      else
        var r :=
          if head.Some? then HeadFile(files, realPath, head.value)
          else if tail.Some? then TailFile(files, realPath, tail.value)
          else ReadText(files, realPath);
        match r
        case Ok(text) => text
        case Err(e) => ErrorMessage(ReadServer, ErrorReading, Some(path), e)
  }

  /** The first `n` lines, in order; all of them when `n` is at least the line count. */
  lemma HeadKeepsFirstLines(text: string, n: int)
    ensures Lines(HeadText(text, n)) == Lines(text)[..HeadCount(|Lines(text)|, n)]
    ensures HeadText(text, n) <= text
    ensures n >= |Lines(text)| ==> HeadText(text, n) == text
    ensures n <= 0 ==> HeadText(text, n) == ""
  {
    var lines := Lines(text);
    var c := HeadCount(|lines|, n);
    LinesWellFormed(text);
    SliceWellFormed(lines, 0, c);
    LinesOfConcat(lines[..c]);
    ConcatAppend(lines[..c], lines[c..]);
    assert lines[..c] + lines[c..] == lines;
    ConcatLines(text);
    if n >= |lines| {
      assert lines[..c] == lines;
    }
  }

  /** The last `n` lines, in order; all of them when `n` is at least the line count;
      a negative count fails with `ValueError`. */
  lemma TailKeepsLastLines(text: string, n: int)
    ensures TailText(text, n).Err? <==> n < 0
    ensures n < 0 ==> TailText(text, n) == Err(Value(NegativeMaxlen))
    ensures n >= 0 ==>
      Lines(TailText(text, n).value) == Lines(text)[|Lines(text)| - Kept(|Lines(text)|, n)..]
    ensures n >= 0 ==> |TailText(text, n).value| <= |text| && text[|text| - |TailText(text, n).value|..] == TailText(text, n).value
    ensures n >= |Lines(text)| ==> TailText(text, n) == Ok(text)
  {
    if n >= 0 {
      var lines := Lines(text);
      var from := |lines| - Kept(|lines|, n);
      var tail := Concat(lines[from..]);
      assert TailText(text, n) == Ok(tail);
      TextEndsWithLines(text, from);
      assert Lines(tail) == lines[from..];
      if n >= |lines| {
        assert lines[from..] == lines;
        ConcatLines(text);
      }
    }
  }

  /** The lines of a file from `from` on are a suffix of its text, and read back as the same lines. */
  lemma TextEndsWithLines(text: string, from: nat)
    requires from <= |Lines(text)|
    ensures var tail := Concat(Lines(text)[from..]);
      Lines(tail) == Lines(text)[from..] && |tail| <= |text| && text[|text| - |tail|..] == tail
  {
    var lines := Lines(text);
    LinesWellFormed(text);
    SuffixLines(lines, from);
    ConcatSplitAt(lines, from);
    ConcatLines(text);
    var head, tail := Concat(lines[..from]), Concat(lines[from..]);
    assert text == head + tail;
    assert text[|text| - |tail|..] == tail;
  }

  /** The head of `n` lines followed by the tail of the remaining lines is the whole file. */
  lemma HeadThenTail(text: string, n: nat)
    requires n <= |Lines(text)|
    ensures HeadText(text, n) + TailText(text, |Lines(text)| - n).value == text
  {
    var lines := Lines(text);
    assert HeadCount(|lines|, n) == n;
    assert Kept(|lines|, |lines| - n) == |lines| - n;
    ConcatAppend(lines[..n], lines[n..]);
    assert lines[..n] + lines[n..] == lines;
    ConcatLines(text);
  }

  /** `read_file` validates the path before anything else, then refuses a request that
      gives both head and tail; with neither it returns the whole text as read. */
  lemma ReadFileChecks(os: PathOps, allowed: seq<string>, table: seq<(string, string)>, files: Files, path: string, head: Option<int>, tail: Option<int>)
    ensures Resolve(os, allowed, table, path).Err? ==>
      ReadFile(os, allowed, table, files, path, head, tail)
        == ErrorMessage(ReadServer, ErrorReading, Some(path), Resolve(os, allowed, table, path).error)
    ensures Resolve(os, allowed, table, path).Ok? && head.Some? && tail.Some? ==>
      ReadFile(os, allowed, table, files, path, head, tail) == ErrorReading + ": " + BothHeadAndTail
    ensures Resolve(os, allowed, table, path).Ok? && head.None? && tail.None?
            && Resolve(os, allowed, table, path).value in files ==>
      ReadFile(os, allowed, table, files, path, head, tail) == TextMode(files[Resolve(os, allowed, table, path).value])
    ensures Resolve(os, allowed, table, path).Ok? && head.None? && tail.None?
            && Resolve(os, allowed, table, path).value !in files ==>
      ReadFile(os, allowed, table, files, path, head, tail)
        == ErrorMessage(ReadServer, ErrorReading, Some(path), FileNotFound(NoSuchFile))
  {
    if Resolve(os, allowed, table, path).Ok? && head.Some? && tail.Some? {
      CustomBeforeValueError(ReadServer, ErrorReading, Some(path), Custom(BothHeadAndTail));
    }
  }

  /** `read_file` with exactly one of head and tail returns `head_file`'s or `tail_file`'s text
      for an existing file, and otherwise the "Error reading" message for the missing file or
      for the negative tail. */
  lemma ReadFileHeadOrTail(os: PathOps, allowed: seq<string>, table: seq<(string, string)>, files: Files, path: string, head: Option<int>, tail: Option<int>, rp: string)
    requires head.Some? != tail.Some?
    ensures Resolve(os, allowed, table, path) == Ok(rp) && rp !in files ==>
      ReadFile(os, allowed, table, files, path, head, tail)
        == ErrorMessage(ReadServer, ErrorReading, Some(path), FileNotFound(NoSuchFile))
    ensures Resolve(os, allowed, table, path) == Ok(rp) && rp in files && head.Some? ==>
      ReadFile(os, allowed, table, files, path, head, tail) == HeadText(TextMode(files[rp]), head.value)
    ensures Resolve(os, allowed, table, path) == Ok(rp) && rp in files && tail.Some? && tail.value >= 0 ==>
      ReadFile(os, allowed, table, files, path, head, tail) == TailText(TextMode(files[rp]), tail.value).value
    ensures Resolve(os, allowed, table, path) == Ok(rp) && rp in files && tail.Some? && tail.value < 0 ==>
      ReadFile(os, allowed, table, files, path, head, tail)
        == ErrorMessage(ReadServer, ErrorReading, Some(path), Value(NegativeMaxlen))
  {
    var reply := ReadFile(os, allowed, table, files, path, head, tail);
    if Resolve(os, allowed, table, path) == Ok(rp) {
      var r :=
        if head.Some? then HeadFile(files, rp, head.value)
        else TailFile(files, rp, tail.value);
      assert reply == if r.Ok? then r.value else ErrorMessage(ReadServer, ErrorReading, Some(path), r.error);
      if rp !in files {
        assert r == Err(FileNotFound(NoSuchFile));
      } else if head.Some? {
        assert r == Ok(HeadText(TextMode(files[rp]), head.value));
      } else {
        assert r == TailText(TextMode(files[rp]), tail.value);
      }
    }
  }

  /** The paths `read_multiple_files` reports, in order: each non-empty entry the first
      time it appears. */
  function Distinct(entries: seq<string>): seq<string>
    decreases |entries|
  {
    if entries == [] then []
    else
      var seen := Distinct(entries[..|entries| - 1]);
      var vp := entries[|entries| - 1];
      if vp == "" || vp in seen then seen else seen + [vp]
  }

  /** The position of the first appearance of `x`. */
  function FirstIndex(s: seq<string>, x: string): (i: nat)
    requires x in s
    ensures i < |s| && s[i] == x && x !in s[..i]
  {
    if s[0] == x then 0
    else
      assert x in s[1..];
      var i := 1 + FirstIndex(s[1..], x);
      assert s[..i] == [s[0]] + s[1..][..i - 1];
      i
  }

  lemma FirstIndexOfPrefix(s: seq<string>, t: seq<string>, x: string)
    requires x in s
    ensures x in s + t && FirstIndex(s + t, x) == FirstIndex(s, x)
  {
    var i := FirstIndex(s, x);
    var j := FirstIndex(s + t, x);
    assert (s + t)[i] == x;
    assert forall k :: 0 <= k < j ==> (s + t)[k] != x by {
      forall k | 0 <= k < j
        ensures (s + t)[k] != x
      {
        assert (s + t)[..j][k] == (s + t)[k];
      }
    }
    assert forall k :: 0 <= k < i ==> s[k] != x by {
      forall k | 0 <= k < i
        ensures s[k] != x
      {
        assert s[..i][k] == s[k];
      }
    }
    assert j < |s| ==> (s + t)[j] == s[j];
  }

  /** Every non-empty entry is reported, nothing else is, and nothing twice. */
  lemma {:induction false} DistinctReportsEachOnce(entries: seq<string>)
    ensures forall x :: x in Distinct(entries) <==> x in entries && x != ""
    ensures forall i, j :: 0 <= i < j < |Distinct(entries)| ==> Distinct(entries)[i] != Distinct(entries)[j]
    decreases |entries|
  {
    if entries != [] {
      var front := entries[..|entries| - 1];
      DistinctReportsEachOnce(front);
      assert entries == front + [entries[|entries| - 1]];
    }
  }

  /** Reported paths come in the order of their first appearance. */
  lemma {:induction false} DistinctInFirstAppearanceOrder(entries: seq<string>)
    ensures forall x :: x in Distinct(entries) ==> x in entries
    ensures forall i, j :: 0 <= i < j < |Distinct(entries)| ==>
      FirstIndex(entries, Distinct(entries)[i]) < FirstIndex(entries, Distinct(entries)[j])
    decreases |entries|
  {
    DistinctReportsEachOnce(entries);
    if entries != [] {
      var front := entries[..|entries| - 1];
      var last := entries[|entries| - 1];
      var d := Distinct(entries);
      var seen := Distinct(front);
      DistinctInFirstAppearanceOrder(front);
      DistinctReportsEachOnce(front);
      assert entries == front + [last];
      forall i | 0 <= i < |seen|
        ensures FirstIndex(entries, seen[i]) == FirstIndex(front, seen[i])
      {
        FirstIndexOfPrefix(front, [last], seen[i]);
      }
      if last == "" || last in seen {
        assert d == seen;
      } else {
        assert d == seen + [last];
        assert last !in front;
        assert FirstIndex(entries, last) == |front| by {
          assert entries[|front|] == last && entries[..|front|] == front;
        }
        forall i, j | 0 <= i < j < |d|
          ensures FirstIndex(entries, d[i]) < FirstIndex(entries, d[j])
        {
          assert d[i] == seen[i];
          if j < |seen| {
            assert d[j] == seen[j];
          } else {
            assert FirstIndex(front, seen[i]) < |front|;
          }
        }
      }
    }
  }

  const Heading: string := "### "
  const Fence: string := "```"

  /** A section that shows a file's text inside a code fence. */
  function FencedSection(vp: string, content: string): string
  {
    Heading + vp + ":\n" + Fence + "\n" + content + "\n" + Fence + "\n"
  }

  /** A section that shows why a file could not be read. */
  function FailedSection(vp: string, e: Exc): string
  {
    Heading + vp + ":\n" + ErrorMessage(ReadServer, ErrorReading, Some(vp), e) + "\n"
  }

  /** One section of the combined reply: the file's text in a fence, or its error message. */
  function Section(os: PathOps, allowed: seq<string>, table: seq<(string, string)>, files: Files, vp: string): string
  {
    match Resolve(os, allowed, table, vp)
    case Err(e) => FailedSection(vp, e)
    case Ok(realPath) =>
      match ReadText(files, realPath)
      case Ok(content) => FencedSection(vp, content)
      case Err(e) => FailedSection(vp, e)
  }

  function Sections(os: PathOps, allowed: seq<string>, table: seq<(string, string)>, files: Files, vps: seq<string>): (r: seq<string>)
    ensures |r| == |vps|
    decreases |vps|
  {
    if vps == [] then []
    else Sections(os, allowed, table, files, vps[..|vps| - 1]) + [Section(os, allowed, table, files, vps[|vps| - 1])]
  }

  /** A path's section in the combined reply: a heading with the path, then the file's text
      in a code fence when the path validates and the file exists; otherwise the heading and
      the "Error reading" message for the validation failure or the missing file. */
  lemma SectionContents(os: PathOps, allowed: seq<string>, table: seq<(string, string)>, files: Files, vp: string)
    ensures Resolve(os, allowed, table, vp).Ok? && Resolve(os, allowed, table, vp).value in files ==>
      Section(os, allowed, table, files, vp)
        == "### " + vp + ":\n```\n" + TextMode(files[Resolve(os, allowed, table, vp).value]) + "\n```\n"
    ensures Resolve(os, allowed, table, vp).Err? ==>
      Section(os, allowed, table, files, vp)
        == "### " + vp + ":\n" + ErrorMessage(ReadServer, ErrorReading, Some(vp), Resolve(os, allowed, table, vp).error) + "\n"
    ensures Resolve(os, allowed, table, vp).Ok? && Resolve(os, allowed, table, vp).value !in files ==>
      Section(os, allowed, table, files, vp)
        == "### " + vp + ":\n" + ErrorMessage(ReadServer, ErrorReading, Some(vp), FileNotFound(NoSuchFile)) + "\n"
  {
    var r := Resolve(os, allowed, table, vp);
    match r
    case Err(e) =>
      assert Section(os, allowed, table, files, vp) == FailedSection(vp, e);
    case Ok(realPath) =>
      if realPath in files {
        assert Section(os, allowed, table, files, vp) == FencedSection(vp, TextMode(files[realPath]));
        FencedSectionText(vp, TextMode(files[realPath]));
      } else {
        assert Section(os, allowed, table, files, vp) == FailedSection(vp, FileNotFound(NoSuchFile));
      }
  }

  lemma FencedSectionText(vp: string, text: string)
    ensures FencedSection(vp, text) == "### " + vp + ":\n```\n" + text + "\n```\n"
  {
    assert Heading + vp + ":\n" + Fence + "\n" + text + "\n" + Fence + "\n"
        == "### " + vp + ":\n```\n" + text + "\n```\n";
  }

  lemma DistinctStep(entries: seq<string>, i: nat)
    requires i < |entries|
    ensures Distinct(entries[..i + 1]) ==
      if entries[i] == "" || entries[i] in Distinct(entries[..i]) then Distinct(entries[..i])
      else Distinct(entries[..i]) + [entries[i]]
  {
    assert entries[..i + 1][..i] == entries[..i];
  }

  lemma SectionsSnoc(os: PathOps, allowed: seq<string>, table: seq<(string, string)>, files: Files, front: seq<string>, x: string)
    ensures Sections(os, allowed, table, files, front + [x]) == Sections(os, allowed, table, files, front) + [Section(os, allowed, table, files, x)]
  {
    assert (front + [x])[..|front|] == front;
  }

  /** The body of `read_multiple_files`'s loop for one new entry: validate, then read. */
  method ReadSection(sb: Sandbox, os: PathOps, files: Files, vp: string) returns (section: string)
    ensures section == Section(os, sb.allowedRealDirs, sb.virtualToReal, files, vp)
  {
    var r := sb.ValidateVirtualPath(os, vp);
    match r {
      case Err(e) =>
        section := FailedSection(vp, e);
      case Ok(realPath) =>
        var content := ReadText(files, realPath);
        match content {
          case Ok(text) => section := FencedSection(vp, text);
          case Err(e) => section := FailedSection(vp, e);
        }
    }
  }

  /** `read_multiple_files(paths)`: one section per distinct non-empty line of `paths`, in
      the order of first appearance, joined by line feeds. */
  method ReadMultipleFiles(sb: Sandbox, os: PathOps, files: Files, paths: string) returns (out: string)
    ensures out == Join(Sections(os, sb.allowedRealDirs, sb.virtualToReal, files, Distinct(Split(paths, '\n'))), "\n")
  {
    ghost var allowed, table := sb.allowedRealDirs, sb.virtualToReal;
    var entries := Split(paths, '\n');
    var results: seq<string> := [];
    var seen: set<string> := {};
    ghost var reported: seq<string> := [];
    var i := 0;
    while i < |entries|
      invariant 0 <= i <= |entries|
      invariant reported == Distinct(entries[..i])
      invariant forall x :: x in seen <==> x in reported
      invariant results == Sections(os, allowed, table, files, reported)
    {
      var vp := entries[i];
      DistinctStep(entries, i);
      if vp != "" && vp !in seen {
        seen := seen + {vp};
        var section := ReadSection(sb, os, files, vp);
        SectionsSnoc(os, allowed, table, files, reported, vp);
        results := results + [section];
        reported := reported + [vp];
      }
      i := i + 1;
    }
    assert entries[..i] == entries;
    out := Join(results, "\n");
  }
}
