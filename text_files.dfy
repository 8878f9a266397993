/** Files as the servers see them: a map from real path to stored text, read in Python's
    text mode, and the lines a file object yields when iterated. */
module TextFiles {
  import opened Common
  import opened Errors

  /** The stored text of each regular file, by real path. */
  type Files = map<string, string>

  /** Universal-newline reading: `"\r\n"` and a lone `"\r"` are both read as `"\n"`. */
  function TextMode(raw: string): (s: string)
    ensures '\r' !in s
    decreases |raw|
  {
    if raw == [] then []
    else if raw[0] == '\r' then
      if |raw| > 1 && raw[1] == '\n' then "\n" + TextMode(raw[2..]) else "\n" + TextMode(raw[1..])
    else [raw[0]] + TextMode(raw[1..])
  }

  /** Text without carriage returns reads back unchanged. */
  lemma {:induction false} TextModeKeepsPlainText(raw: string)
    requires '\r' !in raw
    ensures TextMode(raw) == raw
    decreases |raw|
  {
    if raw != [] {
      TextModeKeepsPlainText(raw[1..]);
      assert [raw[0]] + raw[1..] == raw;
    }
  }

  /** `open(real_path, "r").read()`: a missing file raises `FileNotFoundError`. */
  function ReadText(files: Files, realPath: string): (r: Result<string, Exc>)
    ensures r.Ok? <==> realPath in files
    ensures r.Ok? ==> '\r' !in r.value
  {
    if realPath in files then Ok(TextMode(files[realPath])) else Err(FileNotFound(NoSuchFile))
  }

  /** The lines of a text, each with its `"\n"` terminator (the last may lack one). */
  function Lines(s: string): seq<string>
    decreases |s|
  {
    if s == [] then []
    else
      var rest := Lines(s[1..]);
      if s[0] == '\n' || rest == [] then [[s[0]]] + rest
      else [[s[0]] + rest[0]] + rest[1..]
  }

  /** `"".join(lines)`. */
  function Concat(lines: seq<string>): string
  {
    if lines == [] then "" else lines[0] + Concat(lines[1..])
  }

  /** What iterating a file yields: non-empty lines, `"\n"` only at the end of a line, and
      every line but the last terminated. */
  predicate WellFormed(lines: seq<string>)
  {
    (forall k :: 0 <= k < |lines| ==> |lines[k]| > 0)
    && (forall k, j :: 0 <= k < |lines| && 0 <= j < |lines[k]| - 1 ==> lines[k][j] != '\n')
    && (forall k :: 0 <= k < |lines| - 1 ==> lines[k][|lines[k]| - 1] == '\n')
  }

  lemma {:induction false} ConcatAppend(a: seq<string>, b: seq<string>)
    ensures Concat(a + b) == Concat(a) + Concat(b)
    decreases |a|
  {
    if a != [] {
      ConcatAppend(a[1..], b);
      assert (a + b)[1..] == a[1..] + b;
    } else {
      assert a + b == b;
    }
  }

  /** Joining the lines of a text gives the text back. */
  lemma {:induction false} ConcatLines(s: string)
    ensures Concat(Lines(s)) == s
    decreases |s|
  {
    if s != [] {
      var rest := Lines(s[1..]);
      ConcatLines(s[1..]);
      if s[0] == '\n' || rest == [] {
        assert ([[s[0]]] + rest)[1..] == rest;
      } else {
        var ls := [[s[0]] + rest[0]] + rest[1..];
        assert ls[1..] == rest[1..];
        assert Concat(rest) == rest[0] + Concat(rest[1..]);
        assert [s[0]] + s[1..] == s;
      }
    }
  }

  /** The lines of any text are well formed. */
  lemma {:induction false} LinesWellFormed(s: string)
    ensures WellFormed(Lines(s))
    decreases |s|
  {
    if s != [] {
      LinesWellFormed(s[1..]);
      var rest := Lines(s[1..]);
      var ls := Lines(s);
      if !(s[0] == '\n' || rest == []) {
        assert ls[1..] == rest[1..];
        forall k, j | 0 <= k < |ls| && 0 <= j < |ls[k]| - 1
          ensures ls[k][j] != '\n'
        {
          if k == 0 && j > 0 {
            assert ls[0][j] == rest[0][j - 1];
          }
        }
      }
    }
  }

  lemma {:induction false} LinesOfLinePlus(l: string, b: string)
    requires |l| > 0
    requires forall j :: 0 <= j < |l| - 1 ==> l[j] != '\n'
    requires l[|l| - 1] == '\n' || b == []
    ensures Lines(l + b) == [l] + Lines(b)
    decreases |l|
  {
    var s := l + b;
    if |l| == 1 {
      assert s[1..] == b;
      assert [s[0]] == l;
      if l[0] != '\n' {
        assert Lines(s[1..]) == [];
      }
    } else {
      assert s[1..] == l[1..] + b;
      LinesOfLinePlus(l[1..], b);
      assert [l[0]] + l[1..] == l;
    }
  }

  /** Well-formed lines are exactly the lines of their concatenation. */
  lemma {:induction false} LinesOfConcat(ls: seq<string>)
    requires WellFormed(ls)
    ensures Lines(Concat(ls)) == ls
    decreases |ls|
  {
    if ls != [] {
      assert WellFormed(ls[1..]) by {
        forall k, j | 0 <= k < |ls[1..]| && 0 <= j < |ls[1..][k]| - 1
          ensures ls[1..][k][j] != '\n'
        {
          assert ls[1..][k] == ls[k + 1];
        }
      }
      LinesOfConcat(ls[1..]);
      assert |ls| == 1 ==> ls[1..] == [] && Concat(ls[1..]) == [];
      LinesOfLinePlus(ls[0], Concat(ls[1..]));
      assert [ls[0]] + ls[1..] == ls;
    }
  }

  /** Any run of consecutive well-formed lines is well formed. */
  lemma SliceWellFormed(ls: seq<string>, i: nat, j: nat)
    requires WellFormed(ls) && i <= j <= |ls|
    ensures WellFormed(ls[i..j])
  {
    var t := ls[i..j];
    forall k, m | 0 <= k < |t| && 0 <= m < |t[k]| - 1
      ensures t[k][m] != '\n'
    {
      assert t[k] == ls[i + k];
    }
    forall k | 0 <= k < |t| - 1
      ensures t[k][|t[k]| - 1] == '\n'
    {
      assert t[k] == ls[i + k];
    }
  }

  /** The lines from `from` on are the lines of their concatenation. */
  lemma SuffixLines(lines: seq<string>, from: nat)
    requires WellFormed(lines) && from <= |lines|
    ensures Lines(Concat(lines[from..])) == lines[from..]
  {
    SliceWellFormed(lines, from, |lines|);
    LinesOfConcat(lines[from..]);
  }

  /** Cutting the lines anywhere cuts their concatenation there. */
  lemma ConcatSplitAt(lines: seq<string>, at: nat)
    requires at <= |lines|
    ensures Concat(lines[..at]) + Concat(lines[at..]) == Concat(lines)
  {
    ConcatAppend(lines[..at], lines[at..]);
    assert lines[..at] + lines[at..] == lines;
  }
}
