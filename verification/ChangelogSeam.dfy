/** scripts/assemble_changelog.py: the folded log, line for line. */
module ChangelogSeam {
  import opened Changelog
  import opened Text

  /** The lines without the empty ones at the end. */
  function TrimEmpty(lines: seq<string>): seq<string>
  {
    if |lines| > 0 && lines[|lines| - 1] == "" then TrimEmpty(lines[..|lines| - 1]) else lines
  }

  ghost predicate AllLines(lines: seq<string>)
  {
    forall i :: 0 <= i < |lines| ==> IsLine(lines[i])
  }

  lemma LineThenBreak(line: string)
    requires IsLine(line)
    ensures SplitLines(line + "\n") == [line]
  {
    if line == "" {
      SplitCharThen('\n', "");
      assert line + "\n" == ['\n'] + "";
    } else {
      HeadingLine(line);
    }
  }

  /** Lines joined, and closed by a break, are those lines again. */
  lemma {:induction false} JoinedLines(lines: seq<string>)
    requires AllLines(lines) && |lines| > 0
    ensures SplitLines(Join(lines, "\n") + "\n") == lines
  {
    LineThenBreak(lines[0]);
    if |lines| == 1 {
      assert lines == [lines[0]];
    } else {
      var rest := lines[1..];
      JoinedLines(rest);
      SplitAtBreak(lines[0], '\n', Join(rest, "\n") + "\n");
      assert Join(lines, "\n") + "\n" == lines[0] + ['\n'] + (Join(rest, "\n") + "\n");
      assert lines == [lines[0]] + rest;
    }
  }

  lemma JoinEnds(lines: seq<string>)
    requires |lines| > 0 && lines[0] != ""
    ensures |Join(lines, "\n")| > 0 && Join(lines, "\n")[0] == lines[0][0]
    ensures var last := lines[|lines| - 1];
      last != "" ==> Join(lines, "\n")[|Join(lines, "\n")| - 1] == last[|last| - 1]
    ensures |lines| > 1 ==> Join(lines, "\n") == Join(lines[..|lines| - 1], "\n") + "\n" + lines[|lines| - 1]
  {
    if |lines| > 1 {
      var init, last := lines[..|lines| - 1], [lines[|lines| - 1]];
      JoinAppend(init, last, "\n");
      assert lines == init + last;
      assert init[0] == lines[0];
    }
  }

  /** Stripping newlines off joined lines drops the empty lines at the end, and nothing else. */
  lemma {:induction false} StrippedJoin(lines: seq<string>)
    requires AllLines(lines) && |lines| > 0 && lines[0] != ""
    ensures StripNewlines(Join(lines, "\n")) == Join(TrimEmpty(lines), "\n") && |TrimEmpty(lines)| > 0
  {
    var text, last := Join(lines, "\n"), lines[|lines| - 1];
    JoinEnds(lines);
    assert !IsBreak(lines[0][0]);
    if last == "" {
      var init := lines[..|lines| - 1];
      StrippedJoin(init);
      assert text == Join(init, "\n") + "\n";
      assert text[..|text| - 1] == Join(init, "\n");
    } else {
      assert !IsBreak(last[|last| - 1]);
    }
  }

  /** The lines of a seamed log: those up to the heading as they were, one empty line, what was rendered, and, after two
      empty lines, the lines after the heading as they were, less the blank ones they start with and the empty ones they
      end with. */
  function SeamedLines(lines: seq<string>, anchor: nat, rendered: string): seq<string>
    requires anchor < |lines|
  {
    var rest := TrimEmpty(DropBlanks(lines[anchor + 1..]));
    lines[..anchor + 1] + [""] + SplitLines(StripNewlines(rendered) + "\n")
      + (if rest == [] then [] else ["", ""] + rest)
  }

  lemma {:induction false} DropBlanksStarts(lines: seq<string>)
    ensures |DropBlanks(lines)| > 0 ==> DropBlanks(lines)[0] != ""
  {
    if |lines| > 0 && Blank(lines[0]) {
      DropBlanksStarts(lines[1..]);
    }
  }

  lemma LinesOfSeam(log: string, anchor: nat, rendered: string)
    requires anchor < |SplitLines(log)|
    ensures SplitLines(Seamed(SplitLines(log), anchor, rendered)) == SeamedLines(SplitLines(log), anchor, rendered)
  {
    hide SplitLines, StripNewlines, DropBlanks, Join, TrimEmpty, Blank;
    var lines := SplitLines(log);
    forall i | 0 <= i < |lines| ensures IsLine(lines[i]) {
      SplitLinesAreLines(log, i);
    }
    var tail, body := DropBlanks(lines[anchor + 1..]), StripNewlines(rendered);
    DropBlanksKeepsContent(lines[anchor + 1..]);
    DropBlanksStarts(lines[anchor + 1..]);
    JoinedLines(lines[..anchor + 1]);
    if tail == [] {
      EmptyJoin();
      SeamWithoutRest(lines[..anchor + 1], body);
    } else {
      StrippedJoin(tail);
      TrimmedAreLines(tail);
      JoinedLines(TrimEmpty(tail));
      NonEmptyJoin(TrimEmpty(tail), tail[0]);
      SeamWithRest(lines[..anchor + 1], body, TrimEmpty(tail));
    }
  }

  lemma EmptyJoin()
    ensures StripNewlines(Join([], "\n")) == "" && TrimEmpty([]) == []
  {
  }

  lemma {:induction false} TrimmedAreLines(lines: seq<string>)
    requires |lines| > 0 && lines[0] != "" && AllLines(lines)
    ensures AllLines(TrimEmpty(lines)) && |TrimEmpty(lines)| > 0 && TrimEmpty(lines)[0] == lines[0]
  {
    if lines[|lines| - 1] == "" {
      TrimmedAreLines(lines[..|lines| - 1]);
    }
  }

  lemma NonEmptyJoin(lines: seq<string>, first: string)
    requires |lines| > 0 && lines[0] == first && first != ""
    ensures Join(lines, "\n") != ""
  {
    JoinEnds(lines);
  }

  lemma SplitAfterBreak(text: string)
    ensures SplitLines("\n" + text) == [""] + SplitLines(text)
  {
    SplitCharThen('\n', text);
    assert "\n" + text == ['\n'] + text;
  }

  lemma SeamWithoutRest(head: seq<string>, body: string)
    requires SplitLines(Join(head, "\n") + "\n") == head
    ensures SplitLines(Join(head, "\n") + "\n\n" + body + "" + "\n") == head + [""] + SplitLines(body + "\n") + []
  {
    hide SplitLines, Join;
    SplitAtBreak(Join(head, "\n"), '\n', "\n" + (body + "\n"));
    SplitAfterBreak(body + "\n");
    assert Join(head, "\n") + "\n\n" + body + "" + "\n" == Join(head, "\n") + ['\n'] + ("\n" + (body + "\n"));
    assert Join(head, "\n") + ['\n'] == Join(head, "\n") + "\n";
  }

  lemma SeamWithRest(head: seq<string>, body: string, rest: seq<string>)
    requires SplitLines(Join(head, "\n") + "\n") == head && SplitLines(Join(rest, "\n") + "\n") == rest
    ensures SplitLines(Join(head, "\n") + "\n\n" + body + (ENTRY_SEPARATOR + Join(rest, "\n")) + "\n")
      == head + [""] + SplitLines(body + "\n") + (["", ""] + rest)
  {
    hide SplitLines, Join;
    var later := Join(rest, "\n") + "\n";
    var middle := "\n" + ("\n" + later);
    SplitAfterBreak(later);
    SplitAfterBreak("\n" + later);
    SplitAtBreak(body, '\n', middle);
    var after := body + ['\n'] + middle;
    SplitAfterBreak(after);
    SplitAtBreak(Join(head, "\n"), '\n', "\n" + after);
    assert Join(head, "\n") + "\n\n" + body + (ENTRY_SEPARATOR + Join(rest, "\n")) + "\n"
      == Join(head, "\n") + ['\n'] + ("\n" + after);
    assert Join(head, "\n") + ['\n'] == Join(head, "\n") + "\n" && body + ['\n'] == body + "\n";
    assert [""] + ([""] + rest) == ["", ""] + rest;
    Associates(head, [""], SplitLines(body + "\n") + (["", ""] + rest));
    Associates(head + [""], SplitLines(body + "\n"), ["", ""] + rest);
  }
}
