/** The text transformation of `apply_edits`: each edit rewrites, in one pass of `re.sub`
    with the pattern `^oldText(\r?\n|\r|$)` in MULTILINE mode, every line that is exactly
    `oldText` (or starts with `oldText` and a carriage return), inserting `newText` verbatim and
    keeping what followed `oldText`. Edits apply one after another, in list order. */
module Edits {
  import opened Common

  /** One `{"oldText": ..., "newText": ...}` entry. */
  datatype Edit = Edit(oldText: string, newText: string)

  /** The old texts this model covers: without a line feed, the pattern matches within one line. */
  predicate SingleLine(edits: seq<Edit>)
  {
    forall k :: 0 <= k < |edits| ==> '\n' !in edits[k].oldText
  }

  /** `^oldText` then `\r?\n`, `\r` or `$`: on a line (a part between line feeds) this holds
      when the line is `oldText`, or when it starts with `oldText` followed by `\r`. */
  predicate LineMatches(line: string, oldText: string)
  {
    line == oldText || oldText + "\r" <= line
  }

  /** The replacement `newText + m.group(1)` seen on one line: `newText` then whatever followed `oldText`. */
  function ReplaceLine(line: string, oldText: string, newText: string): string
  {
    if LineMatches(line, oldText) then newText + line[|oldText|..] else line
  }

  /** `re.sub(pattern, lambda m: newText + m.group(1), content, flags=re.MULTILINE)`. */
  function ApplyEdit(content: string, oldText: string, newText: string): string
    requires '\n' !in oldText
  {
    var lines := Split(content, '\n');
    Join(seq(|lines|, k requires 0 <= k < |lines| => ReplaceLine(lines[k], oldText, newText)), "\n")
  }

  /** The content after all edits, applied in list order. */
  function ApplyAll(content: string, edits: seq<Edit>): string
    requires SingleLine(edits)
    decreases |edits|
  {
    if edits == [] then content
    else ApplyAll(ApplyEdit(content, edits[0].oldText, edits[0].newText), edits[1..])
  }

  /** The loop of `apply_edits`, rebinding `new_content` once per edit. */
  method ApplyEditsToText(content: string, edits: seq<Edit>) returns (newContent: string)
    requires SingleLine(edits)
    ensures newContent == ApplyAll(content, edits)
  {
    newContent := content;
    var i := 0;
    while i < |edits|
      invariant 0 <= i <= |edits|
      invariant ApplyAll(content, edits) == ApplyAll(newContent, edits[i..])
    {
      newContent := ApplyEdit(newContent, edits[i].oldText, edits[i].newText);
      assert edits[i..][1..] == edits[i + 1..];
      i := i + 1;
    }
  }

  /** With a replacement free of line feeds, the edited content has the same lines, and
      each line is replaced exactly when it matches. */
  lemma EditLineByLine(content: string, oldText: string, newText: string)
    requires '\n' !in oldText && '\n' !in newText
    ensures |Split(ApplyEdit(content, oldText, newText), '\n')| == |Split(content, '\n')|
    ensures forall k :: 0 <= k < |Split(content, '\n')| ==>
      Split(ApplyEdit(content, oldText, newText), '\n')[k]
        == (if LineMatches(Split(content, '\n')[k], oldText) then newText + Split(content, '\n')[k][|oldText|..]
            else Split(content, '\n')[k])
  {
    var lines := Split(content, '\n');
    var replaced := seq(|lines|, k requires 0 <= k < |lines| => ReplaceLine(lines[k], oldText, newText));
    SplitPartsFree(content, '\n');
    forall k | 0 <= k < |replaced|
      ensures '\n' !in replaced[k]
    {
      assert '\n' !in lines[k];
      if LineMatches(lines[k], oldText) {
        assert replaced[k] == newText + lines[k][|oldText|..];
      }
    }
    SplitJoin(replaced, '\n');
  }

  /** An edit whose old text matches no line leaves the content unchanged. */
  lemma EditWithoutMatch(content: string, oldText: string, newText: string)
    requires '\n' !in oldText
    requires forall k :: 0 <= k < |Split(content, '\n')| ==> !LineMatches(Split(content, '\n')[k], oldText)
    ensures ApplyEdit(content, oldText, newText) == content
  {
    var lines := Split(content, '\n');
    var replaced := seq(|lines|, k requires 0 <= k < |lines| => ReplaceLine(lines[k], oldText, newText));
    assert replaced == lines;
    JoinSplit(content, '\n');
  }

  /** Edits with no matching line, in any number, leave the content unchanged. */
  lemma {:induction false} EditsWithoutMatch(content: string, edits: seq<Edit>)
    requires SingleLine(edits)
    requires forall e, k :: e in edits && 0 <= k < |Split(content, '\n')| ==> !LineMatches(Split(content, '\n')[k], e.oldText)
    ensures ApplyAll(content, edits) == content
    decreases |edits|
  {
    if edits != [] {
      assert edits[0] in edits;
      EditWithoutMatch(content, edits[0].oldText, edits[0].newText);
      assert forall e :: e in edits[1..] ==> e in edits;
      EditsWithoutMatch(content, edits[1..]);
    }
  }

  /** Applying a list of edits is applying its first part, then the rest. */
  lemma {:induction false} ApplyAllAppend(content: string, first: seq<Edit>, rest: seq<Edit>)
    requires SingleLine(first) && SingleLine(rest)
    ensures SingleLine(first + rest)
    ensures ApplyAll(content, first + rest) == ApplyAll(ApplyAll(content, first), rest)
    decreases |first|
  {
    var all := first + rest;
    assert SingleLine(all) by {
      forall k | 0 <= k < |all|
        ensures '\n' !in all[k].oldText
      {
        if k >= |first| {
          assert all[k] == rest[k - |first|];
        }
      }
    }
    if first == [] {
      assert all == rest;
    } else {
      assert all[1..] == first[1..] + rest;
      assert all[0] == first[0];
      ApplyAllAppend(ApplyEdit(content, first[0].oldText, first[0].newText), first[1..], rest);
    }
  }

  /** On text read in text mode (no carriage return), applying an edit a second time changes
      nothing, as long as its replacement has no line break. */
  lemma EditSettles(content: string, oldText: string, newText: string)
    requires '\n' !in oldText && '\n' !in newText && '\r' !in newText && '\r' !in content
    ensures ApplyEdit(ApplyEdit(content, oldText, newText), oldText, newText) == ApplyEdit(content, oldText, newText)
  {
    var once := ApplyEdit(content, oldText, newText);
    EditLineByLine(content, oldText, newText);
    var lines := Split(content, '\n');
    var after := Split(once, '\n');
    // Without carriage returns, a line matches only by being the old text, and becomes the new text.
    forall k | 0 <= k < |after|
      ensures after[k] == if lines[k] == oldText then newText else lines[k]
      ensures LineMatches(lines[k], oldText) <==> lines[k] == oldText
    {
      assert '\r' !in lines[k] by {
        JoinSplit(content, '\n');
        SplitHasNoNewChars(content, '\n', '\r', k);
      }
      assert (oldText + "\r")[|oldText|] == '\r';
      assert |oldText| < |lines[k]| ==> lines[k][|oldText|] != '\r';
      if LineMatches(lines[k], oldText) {
        assert lines[k] == oldText;
      }
    }
    if newText == oldText {
      assert after == lines;
      JoinSplit(content, '\n');
      JoinSplit(once, '\n');
    } else {
      forall k | 0 <= k < |after|
        ensures !LineMatches(after[k], oldText)
      {
        assert |oldText| < |newText| ==> newText[|oldText|] != '\r';
        assert (oldText + "\r")[|oldText|] == '\r';
        if lines[k] != oldText {
          assert |oldText| < |lines[k]| ==> lines[k][|oldText|] != '\r' by {
            JoinSplit(content, '\n');
            SplitHasNoNewChars(content, '\n', '\r', k);
          }
        }
      }
      EditWithoutMatch(once, oldText, newText);
    }
  }
}
