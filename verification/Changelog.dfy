/** scripts/assemble_changelog.py: folding news fragments into the `[Unreleased]` section. */
module Changelog {
  import opened Options
  import opened Text

  const UNRELEASED_HEADING := "## [Unreleased]"
  const ENTRY_SEPARATOR := "\n\n\n"
  const PLACEHOLDER_ZERO: nat := 0
  const PLACEHOLDER_FLOOR: nat := 9000

  // Lines, as Python splits and strips them.

  /** The lines of a text that starts with `c` and goes on with `lines`. */
  function Extend(c: char, lines: seq<string>): seq<string>
  {
    if IsBreak(c) then [""] + lines
    else if |lines| == 0 then [[c]]
    else [[c] + lines[0]] + lines[1..]
  }

  /** `text.splitlines()`: a break at the very end opens no further line. */
  function SplitLines(text: string): seq<string>
  {
    if |text| == 0 then [] else Extend(text[0], SplitLines(text[1..]))
  }

  /** `s.strip("\n")`. */
  function StripNewlines(s: string): string
  {
    if |s| > 0 && s[0] == '\n' then StripNewlines(s[1..])
    else if |s| > 0 && s[|s| - 1] == '\n' then StripNewlines(s[..|s| - 1])
    else s
  }

  predicate Blank(line: string)
  {
    Strip(line) == ""
  }

  predicate IsAnchor(line: string)
  {
    Strip(line) == UNRELEASED_HEADING
  }

  /** The lines that are not blank, in order. */
  function NonBlank(lines: seq<string>): seq<string>
  {
    if |lines| == 0 then [] else (if Blank(lines[0]) then [] else [lines[0]]) + NonBlank(lines[1..])
  }

  /** What a text says, layout aside. */
  function Content(text: string): seq<string>
  {
    NonBlank(SplitLines(text))
  }

  lemma {:induction false} NonBlankAppend(a: seq<string>, b: seq<string>)
    ensures NonBlank(a + b) == NonBlank(a) + NonBlank(b)
  {
    hide Blank;
    if |a| == 0 {
      assert a + b == b;
    } else {
      NonBlankAppend(a[1..], b);
      assert (a + b)[1..] == a[1..] + b;
      var first := if Blank(a[0]) then [] else [a[0]];
      Associates(first, NonBlank(a[1..]), NonBlank(b));
    }
  }

  lemma ExtendAppend(c: char, a: seq<string>, b: seq<string>)
    requires |a| > 0
    ensures Extend(c, a + b) == Extend(c, a) + b && |Extend(c, a)| > 0
  {
    assert (a + b)[1..] == a[1..] + b;
  }

  lemma SplitCharThen(c: char, b: string)
    ensures SplitLines([c] + b) == Extend(c, SplitLines(b))
  {
    assert ([c] + b)[1..] == b;
  }

  lemma {:induction false} SplitAtBreak(a: string, c: char, b: string)
    requires IsBreak(c)
    ensures SplitLines(a + [c] + b) == SplitLines(a + [c]) + SplitLines(b)
    ensures |SplitLines(a + [c])| > 0
  {
    if |a| == 0 {
      SplitCharThen(c, b);
      SplitCharThen(c, "");
      assert a + [c] + b == [c] + b && a + [c] == [c] + "";
    } else {
      SplitAtBreak(a[1..], c, b);
      assert (a + [c] + b)[1..] == a[1..] + [c] + b && (a + [c])[1..] == a[1..] + [c];
      ExtendAppend(a[0], SplitLines(a[1..] + [c]), SplitLines(b));
    }
  }

  lemma {:induction false} ClosingBreak(a: string, c: char)
    requires IsBreak(c)
    ensures SplitLines(a + [c]) == SplitLines(a) || SplitLines(a + [c]) == SplitLines(a) + [""]
    ensures |a| > 0 ==> |SplitLines(a)| > 0
  {
    if |a| == 0 {
      SplitCharThen(c, "");
      assert a + [c] == [c] + "";
    } else {
      ClosingBreak(a[1..], c);
      assert (a + [c])[1..] == a[1..] + [c];
      if |a| == 1 {
        assert a[1..] == "" && a[1..] + [c] == [c] + "";
        SplitCharThen(c, "");
        assert [a[0]] + "" == [a[0]] && [""][1..] == [];
      } else {
        ExtendAppend(a[0], SplitLines(a[1..]), [""]);
      }
    }
  }

  /** Texts joined at a line break say what they say apart. */
  lemma ContentAtBreak(a: string, c: char, b: string)
    requires IsBreak(c)
    ensures Content(a + [c] + b) == Content(a) + Content(b)
  {
    SplitAtBreak(a, c, b);
    ClosingBreak(a, c);
    NonBlankAppend(SplitLines(a + [c]), SplitLines(b));
    NonBlankAppend(SplitLines(a), [""]);
  }

  lemma {:induction false} ContentOfStripped(s: string)
    ensures Content(StripNewlines(s)) == Content(s)
    decreases |s|
  {
    if |s| > 0 && s[0] == '\n' {
      ContentOfStripped(s[1..]);
      ContentAtBreak("", '\n', s[1..]);
      assert "" + ['\n'] + s[1..] == s;
    } else if |s| > 0 && s[|s| - 1] == '\n' {
      ContentOfStripped(s[..|s| - 1]);
      ContentAtBreak(s[..|s| - 1], '\n', "");
      assert s[..|s| - 1] + ['\n'] + "" == s;
    }
  }

  predicate IsLine(line: string)
  {
    forall i :: 0 <= i < |line| ==> !IsBreak(line[i])
  }

  lemma {:induction false} SplitLinesAreLines(text: string, i: nat)
    requires i < |SplitLines(text)|
    ensures IsLine(SplitLines(text)[i])
  {
    if IsBreak(text[0]) {
      if i > 0 { SplitLinesAreLines(text[1..], i - 1); }
    } else if |SplitLines(text[1..])| > 0 {
      SplitLinesAreLines(text[1..], i);
    }
  }

  lemma {:induction false} SplitOneLine(line: string)
    requires IsLine(line)
    ensures SplitLines(line) == if line == "" then [] else [line]
  {
    if |line| > 0 {
      SplitOneLine(line[1..]);
      assert line == [line[0]] + line[1..] && [line[1..]][1..] == [];
      assert [line[0]] + "" == [line[0]];
    }
  }

  lemma ContentOfLine(line: string)
    requires IsLine(line)
    ensures Content(line) == NonBlank([line])
  {
    SplitOneLine(line);
    assert [line][1..] == [];
  }

  /** Lines joined by newlines say the lines. */
  lemma {:induction false} ContentOfJoin(lines: seq<string>)
    requires forall i :: 0 <= i < |lines| ==> IsLine(lines[i])
    ensures Content(Join(lines, "\n")) == NonBlank(lines)
  {
    if |lines| == 1 {
      ContentOfLine(lines[0]);
      assert lines == [lines[0]];
    } else if |lines| > 1 {
      ContentOfJoin(lines[1..]);
      ContentOfLine(lines[0]);
      ContentAtBreak(lines[0], '\n', Join(lines[1..], "\n"));
      NonBlankAppend([lines[0]], lines[1..]);
      assert lines == [lines[0]] + lines[1..];
    }
  }

  // What a blank line is not.

  lemma {:induction false} LStripKeepsFirst(s: string)
    ensures |LStrip(s)| > 0 ==> !IsSpace(LStrip(s)[0])
    ensures |LStrip(s)| == 0 ==> forall i :: 0 <= i < |s| ==> IsSpace(s[i])
  {
    if |s| > 0 && IsSpace(s[0]) {
      LStripKeepsFirst(s[1..]);
      assert forall i :: 0 < i < |s| ==> s[i] == s[1..][i - 1];
    }
  }

  lemma {:induction false} RStripKeepsInk(s: string, i: nat)
    requires i < |s| && !IsSpace(s[i])
    ensures |RStrip(s)| > i
  {
    if IsSpace(s[|s| - 1]) {
      RStripKeepsInk(s[..|s| - 1], i);
    }
  }

  /** A line with any ink is not blank. */
  lemma InkIsNotBlank(line: string, i: nat)
    requires i < |line| && !IsSpace(line[i])
    ensures !Blank(line)
  {
    LStripKeepsFirst(line);
    RStripKeepsInk(LStrip(line), 0);
  }

  // Fragments.

  datatype Fragment = Fragment(name: string, number: nat, body: string)

  datatype Problem = PlaceholderNumber | EmptyFragment | NoEntryHeading | ForgesVersion | ManyEntries

  predicate IsPlaceholderNumber(number: nat)
  {
    number == PLACEHOLDER_ZERO || number >= PLACEHOLDER_FLOOR
  }

  predicate IsEntry(line: string)
  {
    StartsWith(line, "### ")
  }

  predicate IsSection(line: string)
  {
    StartsWith(line, "## ")
  }

  /** The pattern `^### \S`. */
  predicate IsHeading(line: string)
  {
    IsEntry(line) && |line| > 4 && !IsSpace(line[4])
  }

  function CountEntries(lines: seq<string>): nat
  {
    if |lines| == 0 then 0 else (if IsEntry(lines[0]) then 1 else 0) + CountEntries(lines[1..])
  }

  predicate NoSection(lines: seq<string>)
  {
    forall i :: 0 <= i < |lines| ==> !IsSection(lines[i])
  }

  /** The contract of one fragment. */
  predicate IsValid(f: Fragment)
  {
    var lines := SplitLines(f.body);
    && !IsPlaceholderNumber(f.number)
    && |NonBlank(lines)| > 0 && IsHeading(NonBlank(lines)[0])
    && NoSection(lines) && CountEntries(lines) <= 1
  }

  /** The line starts with the mark. */
  ghost predicate Begins(line: string, mark: string)
  {
    exists rest :: line == mark + rest
  }

  /** Three hashes, a space and then no white space. */
  ghost predicate OpensEntry(line: string)
  {
    Begins(line, "### ") && |line| >= 5 && !IsSpace(line[4])
  }

  lemma BeginsIff(line: string, mark: string)
    ensures Begins(line, mark) <==> StartsWith(line, mark)
  {
    if StartsWith(line, mark) {
      assert line == mark + line[|mark|..];
    }
  }

  /** Some line from here on starts with the mark. */
  ghost predicate SomeBegins(lines: seq<string>, mark: string)
  {
    exists i :: 0 <= i < |lines| && Begins(lines[i], mark)
  }

  ghost predicate TwoBegin(lines: seq<string>, mark: string)
  {
    exists i, j :: 0 <= i < j < |lines| && Begins(lines[i], mark) && Begins(lines[j], mark)
  }

  lemma SomeAfterFirst(lines: seq<string>, mark: string)
    requires |lines| > 0
    ensures SomeBegins(lines, mark) <==> Begins(lines[0], mark) || SomeBegins(lines[1..], mark)
    ensures TwoBegin(lines, mark) <==>
      (Begins(lines[0], mark) && SomeBegins(lines[1..], mark)) || TwoBegin(lines[1..], mark)
  {
    hide Begins;
    var rest := lines[1..];
    assert forall i :: 0 <= i < |rest| ==> rest[i] == lines[i + 1];
    if i :| 0 <= i < |lines| && Begins(lines[i], mark) {
      assert i > 0 ==> rest[i - 1] == lines[i];
    }
    if i, j :| 0 <= i < j < |lines| && Begins(lines[i], mark) && Begins(lines[j], mark) {
      assert rest[j - 1] == lines[j] && (i > 0 ==> rest[i - 1] == lines[i]);
    }
  }

  lemma {:induction false} ManyEntriesIff(lines: seq<string>)
    ensures CountEntries(lines) > 0 <==> SomeBegins(lines, "### ")
    ensures CountEntries(lines) > 1 <==> TwoBegin(lines, "### ")
  {
    hide Begins, StartsWith, SomeBegins, TwoBegin;
    if |lines| > 0 {
      ManyEntriesIff(lines[1..]);
      BeginsIff(lines[0], "### ");
      SomeAfterFirst(lines, "### ");
    } else {
      NoneBegins("### ");
    }
  }

  lemma NoneBegins(mark: string)
    ensures !SomeBegins([], mark) && !TwoBegin([], mark)
  {
  }

  lemma NoSectionIff(lines: seq<string>)
    ensures NoSection(lines) <==> !SomeBegins(lines, "## ")
  {
    forall i | 0 <= i < |lines| ensures Begins(lines[i], "## ") <==> IsSection(lines[i]) {
      BeginsIff(lines[i], "## ");
    }
    hide Begins, IsSection;
  }

  lemma HeadingIff(line: string)
    ensures IsHeading(line) <==> OpensEntry(line)
  {
    BeginsIff(line, "### ");
  }

  /** The problems of a fragment with text, in the order they are looked for. */
  function ProblemsOf(placeholder: bool, headless: bool, forges: bool, many: bool): (problems: seq<Problem>)
    ensures PlaceholderNumber in problems <==> placeholder
    ensures NoEntryHeading in problems <==> headless
    ensures ForgesVersion in problems <==> forges
    ensures ManyEntries in problems <==> many
    ensures EmptyFragment !in problems
    ensures problems == [] <==> !placeholder && !headless && !forges && !many
  {
    (if placeholder then [PlaceholderNumber] else []) + (if headless then [NoEntryHeading] else [])
    + (if forges then [ForgesVersion] else []) + (if many then [ManyEntries] else [])
  }

  lemma FirstProblems(placeholder: bool)
    ensures ProblemsOf(false, false, false, false) == []
    ensures ProblemsOf(true, false, false, false) == [PlaceholderNumber]
    ensures ProblemsOf(placeholder, false, false, false) + [NoEntryHeading]
      == ProblemsOf(placeholder, true, false, false)
  {
  }

  lemma OneMoreProblem(placeholder: bool, headless: bool, forges: bool)
    ensures ProblemsOf(placeholder, headless, false, false) + [ForgesVersion]
      == ProblemsOf(placeholder, headless, true, false)
    ensures ProblemsOf(placeholder, headless, forges, false) + [ManyEntries]
      == ProblemsOf(placeholder, headless, forges, true)
  {
    var some := ProblemsOf(placeholder, headless, false, false);
    assert ProblemsOf(placeholder, headless, true, false) == some + [ForgesVersion];
  }

  method ValidateFragment(f: Fragment) returns (problems: seq<Problem>)
    ensures problems == [] <==> IsValid(f)
    ensures PlaceholderNumber in problems <==> f.number == 0 || f.number >= 9000
    ensures EmptyFragment in problems <==> NonBlank(SplitLines(f.body)) == []
    ensures EmptyFragment in problems ==>
      NoEntryHeading !in problems && ForgesVersion !in problems && ManyEntries !in problems
    ensures EmptyFragment !in problems ==>
      var lines := SplitLines(f.body);
      && (NoEntryHeading in problems <==> !OpensEntry(NonBlank(lines)[0]))
      && (ForgesVersion in problems <==> SomeBegins(lines, "## "))
      && (ManyEntries in problems <==> TwoBegin(lines, "### "))
  {
    hide SplitLines, NonBlank, IsHeading, OpensEntry, SomeBegins, TwoBegin, CountEntries, IsSection, ProblemsOf;
    var lines := SplitLines(f.body);
    ManyEntriesIff(lines);
    NoSectionIff(lines);
    ghost var placeholder := IsPlaceholderNumber(f.number);
    problems := [];
    if IsPlaceholderNumber(f.number) {
      problems := problems + [PlaceholderNumber];
    }
    var stripped := NonBlank(lines);
    if |stripped| == 0 {
      return problems + [EmptyFragment];
    }
    HeadingIff(stripped[0]);
    if !IsHeading(stripped[0]) {
      problems := problems + [NoEntryHeading];
    }
    ghost var headless := !IsHeading(stripped[0]);
    FirstProblems(placeholder);
    OneMoreProblem(placeholder, headless, !NoSection(lines));
    for i := 0 to |lines|
      invariant problems == ProblemsOf(placeholder, headless, false, false)
      invariant forall j :: 0 <= j < i ==> !IsSection(lines[j])
    {
      if IsSection(lines[i]) {
        problems := problems + [ForgesVersion];
        break;
      }
    }
    if CountEntries(lines) > 1 {
      problems := problems + [ManyEntries];
    }
    assert problems == ProblemsOf(placeholder, headless, !NoSection(lines), CountEntries(lines) > 1);
  }

  /** A fragment's entry heading: its first line that is not blank, if that is an entry. */
  function FragmentEntry(body: string): Option<string>
  {
    var lines := NonBlank(SplitLines(body));
    if |lines| > 0 && IsEntry(lines[0]) then Some(RStrip(lines[0])) else None
  }

  function Render(fragments: seq<Fragment>): string
  {
    Join(seq(|fragments|, i requires 0 <= i < |fragments| => StripNewlines(fragments[i].body)), ENTRY_SEPARATOR)
  }

  /** What the fragments say, one after the other. */
  function Contents(fragments: seq<Fragment>): seq<string>
  {
    if |fragments| == 0 then [] else Content(fragments[0].body) + Contents(fragments[1..])
  }

  /** The entry headings of the fragments, in order. */
  function Headings(fragments: seq<Fragment>): seq<string>
  {
    if |fragments| == 0 then []
    else (match FragmentEntry(fragments[0].body) case Some(h) => [h] case None => []) + Headings(fragments[1..])
  }

  lemma ContentAtSeparator(a: string, b: string)
    ensures Content(a + ENTRY_SEPARATOR + b) == Content(a) + Content(b)
  {
    var third := "" + ['\n'] + b;
    var second := "" + ['\n'] + third;
    assert a + ENTRY_SEPARATOR + b == a + ['\n'] + second;
    ContentAtBreak(a, '\n', second);
    ContentAtBreak("", '\n', third);
    ContentAtBreak("", '\n', b);
  }

  lemma {:induction false} ContentOfRender(fragments: seq<Fragment>)
    ensures Content(Render(fragments)) == Contents(fragments)
  {
    if |fragments| > 0 {
      var bodies := seq(|fragments|, i requires 0 <= i < |fragments| => StripNewlines(fragments[i].body));
      var rest := seq(|fragments[1..]|, i requires 0 <= i < |fragments[1..]| => StripNewlines(fragments[1..][i].body));
      assert bodies[1..] == rest;
      ContentOfStripped(fragments[0].body);
      ContentOfRender(fragments[1..]);
      if |fragments| == 1 {
        assert fragments[1..] == [];
      } else {
        ContentAtSeparator(bodies[0], Join(rest, ENTRY_SEPARATOR));
      }
    }
  }

  // Entries of a log.

  /** The entry headings read from here on, inside the `[Unreleased]` section or before it. */
  function Scan(lines: seq<string>, inside: bool): seq<string>
  {
    if |lines| == 0 then []
    else if IsAnchor(lines[0]) then Scan(lines[1..], true)
    else if inside && IsSection(lines[0]) then []
    else if inside && IsEntry(lines[0]) then [RStrip(lines[0])] + Scan(lines[1..], inside)
    else Scan(lines[1..], inside)
  }

  /** The entry headings under `[Unreleased]`, in file order. */
  function Entries(text: string): seq<string>
  {
    Scan(SplitLines(text), false)
  }

  lemma {:induction false} ScanSkipsBlanks(lines: seq<string>, inside: bool)
    ensures Scan(NonBlank(lines), inside) == Scan(lines, inside)
  {
    if |lines| > 0 {
      ScanSkipsBlanks(lines[1..], inside);
      ScanSkipsBlanks(lines[1..], true);
      var kept := NonBlank(lines);
      if Blank(lines[0]) {
        if IsSection(lines[0]) || IsEntry(lines[0]) {
          assert lines[0][0] == lines[0][..3][0] == '#';
          InkIsNotBlank(lines[0], 0);
        }
        assert kept == NonBlank(lines[1..]);
      } else {
        assert kept[1..] == NonBlank(lines[1..]);
      }
    }
  }

  lemma {:induction false} ScanBeforeAnchor(before: seq<string>, rest: seq<string>)
    requires forall i :: 0 <= i < |before| ==> !IsAnchor(before[i])
    ensures Scan(before + rest, false) == Scan(rest, false)
  {
    if |before| == 0 {
      assert before + rest == rest;
    } else {
      ScanBeforeAnchor(before[1..], rest);
      assert (before + rest)[1..] == before[1..] + rest;
    }
  }

  /** Lines without a section heading, read inside the section, only add their own entries. */
  lemma {:induction false} ScanThrough(block: seq<string>, rest: seq<string>)
    requires NoSection(block)
    ensures Scan(block + rest, true) == Scan(block, true) + Scan(rest, true)
  {
    if |block| == 0 {
      assert block + rest == rest;
    } else {
      ScanThrough(block[1..], rest);
      assert (block + rest)[1..] == block[1..] + rest;
    }
  }

  lemma {:induction false} RStripIsPrefix(s: string)
    ensures |RStrip(s)| <= |s| && RStrip(s) == s[..|RStrip(s)|]
  {
    if |s| > 0 && IsSpace(s[|s| - 1]) {
      RStripIsPrefix(s[..|s| - 1]);
    }
  }

  lemma EntryIsNoAnchor(line: string)
    requires IsEntry(line)
    ensures !IsAnchor(line)
  {
    assert line[0] == line[..4][0] && line[2] == line[..4][2];
    RStripIsPrefix(line);
    assert |RStrip(line)| > 2 ==> RStrip(line)[2] == line[2];
    assert LStrip(line) == line;
  }

  // The entries of a log, told from its lines.

  /** The lines that open an entry, without the white space at their ends, in order. */
  function EntryLines(lines: seq<string>): seq<string>
  {
    if |lines| == 0 then []
    else (if |lines[0]| >= 4 && lines[0][..4] == "### " then [RStrip(lines[0])] else []) + EntryLines(lines[1..])
  }

  /** From the first line that strips to the heading, to the first line after it that starts a section, other than such
      a line, or to the end. */
  ghost predicate IsUnreleased(lines: seq<string>, start: nat, end: nat)
  {
    && start < end <= |lines| && Strip(lines[start]) == "## [Unreleased]"
    && (forall i :: 0 <= i < start ==> Strip(lines[i]) != "## [Unreleased]")
    && (forall i :: start < i < end && StartsWith(lines[i], "## ") ==> Strip(lines[i]) == "## [Unreleased]")
    && (end < |lines| ==> StartsWith(lines[end], "## ") && Strip(lines[end]) != "## [Unreleased]")
  }

  lemma {:induction false} InsideSection(lines: seq<string>, end: nat)
    requires end <= |lines|
    requires forall i :: 0 <= i < end && StartsWith(lines[i], "## ") ==> Strip(lines[i]) == "## [Unreleased]"
    requires end < |lines| ==> StartsWith(lines[end], "## ") && Strip(lines[end]) != "## [Unreleased]"
    ensures Scan(lines, true) == EntryLines(lines[..end])
  {
    hide Strip, RStrip;
    if end > 0 {
      InsideSection(lines[1..], end - 1);
      assert lines[..end][1..] == lines[1..][..end - 1];
      if IsEntry(lines[0]) {
        EntryIsNoAnchor(lines[0]);
        assert !IsSection(lines[0]) by { assert lines[0][2] == lines[0][..4][2]; }
      }
      assert IsSection(lines[0]) ==> IsAnchor(lines[0]);
    }
  }

  /** The entries of a log are those of its unreleased section, and a log without one has none. */
  lemma EntriesAreTheSections(text: string, start: nat, end: nat)
    ensures IsUnreleased(SplitLines(text), start, end) ==>
      Entries(text) == EntryLines(SplitLines(text)[start + 1..end])
    ensures (forall line :: line in SplitLines(text) ==> Strip(line) != "## [Unreleased]") ==> Entries(text) == []
  {
    hide Strip, SplitLines;
    var lines := SplitLines(text);
    if IsUnreleased(lines, start, end) {
      var before, rest := lines[..start], lines[start..];
      assert lines == before + rest && rest[0] == lines[start] && rest[1..] == lines[start + 1..];
      ScanBeforeAnchor(before, rest);
      InsideSection(rest[1..], end - start - 1);
      assert rest[1..][..end - start - 1] == lines[start + 1..end];
    }
    if forall line :: line in lines ==> Strip(line) != "## [Unreleased]" {
      ScanBeforeAnchor(lines, []);
      assert lines + [] == lines;
    }
  }

  lemma {:induction false} CountEntriesSkipsBlanks(lines: seq<string>)
    ensures CountEntries(NonBlank(lines)) == CountEntries(lines)
  {
    if |lines| > 0 {
      CountEntriesSkipsBlanks(lines[1..]);
      if Blank(lines[0]) {
        if IsEntry(lines[0]) {
          assert lines[0][0] == lines[0][..4][0] == '#';
          InkIsNotBlank(lines[0], 0);
        }
        assert NonBlank(lines) == NonBlank(lines[1..]);
      } else {
        assert NonBlank(lines)[1..] == NonBlank(lines[1..]);
      }
    }
  }

  lemma {:induction false} NoSectionSkipsBlanks(lines: seq<string>)
    requires NoSection(lines)
    ensures NoSection(NonBlank(lines))
  {
    if |lines| > 0 {
      NoSectionSkipsBlanks(lines[1..]);
    }
  }

  lemma {:induction false} ScanWithoutEntries(lines: seq<string>)
    requires NoSection(lines) && CountEntries(lines) == 0
    ensures Scan(lines, true) == []
  {
    if |lines| > 0 {
      ScanWithoutEntries(lines[1..]);
    }
  }

  /** A valid fragment, read inside the section, is exactly its one entry. */
  lemma FragmentScansToItsEntry(f: Fragment)
    requires IsValid(f)
    ensures FragmentEntry(f.body).Some?
    ensures NoSection(Content(f.body)) && Scan(Content(f.body), true) == [FragmentEntry(f.body).value]
  {
    var lines := Content(f.body);
    CountEntriesSkipsBlanks(SplitLines(f.body));
    NoSectionSkipsBlanks(SplitLines(f.body));
    EntryIsNoAnchor(lines[0]);
    assert !IsSection(lines[0]);
    ScanWithoutEntries(lines[1..]);
  }

  ghost predicate AllValid(fragments: seq<Fragment>)
  {
    forall i :: 0 <= i < |fragments| ==> IsValid(fragments[i])
  }

  lemma ScanOneMore(block: seq<string>, later: seq<string>, rest: seq<string>, entry: string, headings: seq<string>,
      after: seq<string>)
    requires NoSection(block) && Scan(block, true) == [entry] && Scan(later + rest, true) == headings + after
    ensures Scan((block + later) + rest, true) == ([entry] + headings) + after
  {
    ScanThrough(block, later + rest);
    hide Scan, NoSection;
    Associates(block, later, rest);
    Associates([entry], headings, after);
  }

  lemma {:induction false} ContentsScanToHeadings(fragments: seq<Fragment>, rest: seq<string>)
    requires AllValid(fragments)
    ensures Scan(Contents(fragments) + rest, true) == Headings(fragments) + Scan(rest, true)
  {
    if |fragments| == 0 {
      assert Contents(fragments) + rest == rest;
    } else {
      FragmentScansToItsEntry(fragments[0]);
      hide Content, IsValid, FragmentEntry, Scan, NoSection;
      ContentsScanToHeadings(fragments[1..], rest);
      ScanOneMore(Content(fragments[0].body), Contents(fragments[1..]), rest, FragmentEntry(fragments[0].body).value,
        Headings(fragments[1..]), Scan(rest, true));
    }
  }

  // Anchors.

  function CountAnchors(lines: seq<string>): nat
  {
    if |lines| == 0 then 0 else (if IsAnchor(lines[0]) then 1 else 0) + CountAnchors(lines[1..])
  }

  lemma {:induction false} CountAnchorsAppend(a: seq<string>, b: seq<string>)
    ensures CountAnchors(a + b) == CountAnchors(a) + CountAnchors(b)
  {
    if |a| == 0 {
      assert a + b == b;
    } else {
      CountAnchorsAppend(a[1..], b);
      assert (a + b)[1..] == a[1..] + b;
    }
  }

  lemma {:induction false} CountAnchorsSkipsBlanks(lines: seq<string>)
    ensures CountAnchors(NonBlank(lines)) == CountAnchors(lines)
  {
    if |lines| > 0 {
      CountAnchorsSkipsBlanks(lines[1..]);
      if Blank(lines[0]) {
        assert NonBlank(lines) == NonBlank(lines[1..]);
      } else {
        assert NonBlank(lines)[1..] == NonBlank(lines[1..]);
      }
    }
  }

  lemma {:induction false} NoAnchors(lines: seq<string>)
    ensures CountAnchors(lines) == 0 <==> forall i :: 0 <= i < |lines| ==> !IsAnchor(lines[i])
  {
    if |lines| > 0 {
      NoAnchors(lines[1..]);
      assert forall i :: 0 < i < |lines| ==> lines[i] == lines[1..][i - 1];
    }
  }

  // The insertion.

  datatype Insertion = Folded(text: string) | BadAnchors(found: nat)

  function DropBlanks(lines: seq<string>): seq<string>
  {
    if |lines| > 0 && Blank(lines[0]) then DropBlanks(lines[1..]) else lines
  }

  /** The log with `rendered` put under the heading at line `anchor`. */
  function Seamed(lines: seq<string>, anchor: nat, rendered: string): string
    requires anchor < |lines|
  {
    var head := Join(lines[..anchor + 1], "\n");
    var rest := StripNewlines(Join(DropBlanks(lines[anchor + 1..]), "\n"));
    head + "\n\n" + StripNewlines(rendered) + (if rest == "" then "" else ENTRY_SEPARATOR + rest) + "\n"
  }

  method InsertIntoChangelog(log: string, rendered: string) returns (r: Insertion)
    ensures rendered == "" ==> r == Folded(log)
    ensures rendered != "" && CountAnchors(SplitLines(log)) != 1 ==> r == BadAnchors(CountAnchors(SplitLines(log)))
    ensures rendered != "" && CountAnchors(SplitLines(log)) == 1 ==>
      exists anchor :: 0 <= anchor < |SplitLines(log)| && IsAnchor(SplitLines(log)[anchor])
        && r == Folded(Seamed(SplitLines(log), anchor, rendered))
  {
    hide Blank, IsAnchor, SplitLines, StripNewlines, Join;
    if rendered == "" {
      return Folded(log);
    }
    var lines := SplitLines(log);
    var anchors: seq<nat> := [];
    for i := 0 to |lines|
      invariant |anchors| == CountAnchors(lines[..i])
      invariant forall k :: 0 <= k < |anchors| ==> anchors[k] < i && IsAnchor(lines[anchors[k]])
    {
      CountAnchorsAppend(lines[..i], [lines[i]]);
      assert lines[..i + 1] == lines[..i] + [lines[i]];
      if IsAnchor(lines[i]) {
        anchors := anchors + [i];
      }
    }
    assert lines[..|lines|] == lines;
    if |anchors| != 1 {
      return BadAnchors(|anchors|);
    }
    var anchor := anchors[0];
    var tail := lines[anchor + 1..];
    while |tail| > 0 && Blank(tail[0])
      invariant DropBlanks(tail) == DropBlanks(lines[anchor + 1..])
    {
      tail := tail[1..];
    }
    var head := Join(lines[..anchor + 1], "\n");
    var body := StripNewlines(rendered);
    var rest := StripNewlines(Join(tail, "\n"));
    var assembled := head + "\n\n" + body;
    if rest != "" {
      assembled := assembled + ENTRY_SEPARATOR + rest;
    }
    r := Folded(assembled + "\n");
    assert r.text == Seamed(lines, anchor, rendered);
  }

  lemma {:induction false} DropBlanksKeepsContent(lines: seq<string>)
    ensures NonBlank(DropBlanks(lines)) == NonBlank(lines)
    ensures forall i :: 0 <= i < |DropBlanks(lines)| ==> DropBlanks(lines)[i] in lines
  {
    if |lines| > 0 && Blank(lines[0]) {
      DropBlanksKeepsContent(lines[1..]);
    }
  }

  /** Outside the seam every line with ink stays, in order; inside it is what was rendered. */
  lemma ContentOfSeam(log: string, anchor: nat, rendered: string)
    requires anchor < |SplitLines(log)|
    ensures var lines := SplitLines(log);
      Content(Seamed(lines, anchor, rendered))
        == NonBlank(lines[..anchor + 1]) + Content(rendered) + NonBlank(lines[anchor + 1..])
  {
    hide SplitLines, NonBlank, StripNewlines, DropBlanks, Join, Content, IsLine;
    var lines := SplitLines(log);
    forall i | 0 <= i < |lines|
      ensures IsLine(lines[i])
    {
      SplitLinesAreLines(log, i);
    }
    var tail := lines[anchor + 1..];
    DropBlanksKeepsContent(tail);
    var head, body := Join(lines[..anchor + 1], "\n"), StripNewlines(rendered);
    var joined := Join(DropBlanks(tail), "\n");
    var rest := StripNewlines(joined);
    ContentOfJoin(lines[..anchor + 1]);
    ContentOfJoin(DropBlanks(tail));
    ContentOfStripped(rendered);
    ContentOfStripped(joined);
    EmptyContent();
    var block := body + if rest == "" then "" else ENTRY_SEPARATOR + rest;
    if rest == "" {
      assert block == body;
    } else {
      assert block == body + ENTRY_SEPARATOR + rest;
      ContentAtSeparator(body, rest);
    }
    ContentOfLog(head, block);
    assert Seamed(lines, anchor, rendered) == head + "\n\n" + block + "\n";
  }

  lemma EmptyContent()
    ensures Content("") == []
  {
  }

  lemma ContentOfLog(head: string, block: string)
    ensures Content(head + "\n\n" + block + "\n") == Content(head) + Content(block)
  {
    hide Content;
    EmptyContent();
    var inner := "" + ['\n'] + block;
    ContentAtBreak(head, '\n', inner);
    ContentAtBreak("", '\n', block);
    var all := head + ['\n'] + inner;
    ContentAtBreak(all, '\n', "");
    assert head + "\n\n" + block + "\n" == all + ['\n'] + "";
  }

  // `apply`.

  /** Folding valid fragments in puts their entries, in order, before the entries the log had. */
  lemma FoldedEntries(log: string, anchor: nat, fragments: seq<Fragment>)
    requires AllValid(fragments) && anchor < |SplitLines(log)| && IsAnchor(SplitLines(log)[anchor])
    requires CountAnchors(SplitLines(log)) == 1
    ensures Entries(Seamed(SplitLines(log), anchor, Render(fragments))) == Headings(fragments) + Entries(log)
  {
    var lines := SplitLines(log);
    var before, after := lines[..anchor], lines[anchor + 1..];
    OnlyAnchor(lines, anchor);
    assert lines == before + ([lines[anchor]] + after);
    ScanBeforeAnchor(before, [lines[anchor]] + after);
    assert ([lines[anchor]] + after)[1..] == after;
    assert Entries(log) == Scan(after, true);
    var folded := Seamed(lines, anchor, Render(fragments));
    ContentOfSeam(log, anchor, Render(fragments));
    ContentOfRender(fragments);
    FoldedScan(before, lines[anchor], after, fragments);
    assert lines[..anchor + 1] == before + [lines[anchor]];
    ScanSkipsBlanks(SplitLines(folded), false);
  }

  lemma FoldedScan(before: seq<string>, anchorLine: string, after: seq<string>, fragments: seq<Fragment>)
    requires AllValid(fragments) && IsAnchor(anchorLine) && forall i :: 0 <= i < |before| ==> !IsAnchor(before[i])
    ensures Scan(NonBlank(before + [anchorLine]) + Contents(fragments) + NonBlank(after), false)
      == Headings(fragments) + Scan(after, true)
  {
    hide NonBlank, Contents, Headings, IsAnchor, Scan, CountAnchors;
    var kept, rest := NonBlank(before), Contents(fragments) + NonBlank(after);
    NonBlankAppend(before, [anchorLine]);
    AnchorLine(anchorLine, rest);
    CountAnchorsSkipsBlanks(before);
    NoAnchors(before);
    NoAnchors(kept);
    ScanBeforeAnchor(kept, [anchorLine] + rest);
    assert kept + [anchorLine] + Contents(fragments) + NonBlank(after) == kept + ([anchorLine] + rest);
    ContentsScanToHeadings(fragments, NonBlank(after));
    ScanSkipsBlanks(after, true);
  }

  lemma AnchorLine(line: string, rest: seq<string>)
    requires IsAnchor(line)
    ensures NonBlank([line]) == [line]
    ensures Scan([line] + rest, false) == Scan(rest, true)
  {
    assert [line][1..] == [] && ([line] + rest)[1..] == rest;
  }

  lemma OnlyAnchor(lines: seq<string>, anchor: nat)
    requires anchor < |lines| && IsAnchor(lines[anchor]) && CountAnchors(lines) == 1
    ensures forall i :: 0 <= i < |lines| && i != anchor ==> !IsAnchor(lines[i])
  {
    hide IsAnchor;
    var before, after := lines[..anchor], lines[anchor + 1..];
    assert lines == before + ([lines[anchor]] + after);
    CountAnchorsAppend(before, [lines[anchor]] + after);
    CountAnchorsAppend([lines[anchor]], after);
    hide CountAnchors;
    NoAnchors([lines[anchor]]);
    NoAnchors(before);
    NoAnchors(after);
    assert [lines[anchor]][0] == lines[anchor];
    assert forall i :: anchor < i < |lines| ==> lines[i] == after[i - anchor - 1];
    assert forall i :: 0 <= i < anchor ==> lines[i] == before[i];
  }

  /** The folded log keeps its anchor and gains one for every fragment line that strips to the heading. */
  lemma FoldedAnchors(log: string, anchor: nat, fragments: seq<Fragment>)
    requires anchor < |SplitLines(log)| && CountAnchors(SplitLines(log)) == 1
    ensures var folded := Seamed(SplitLines(log), anchor, Render(fragments));
      CountAnchors(SplitLines(folded)) == 1 + CountAnchors(Contents(fragments))
  {
    var lines := SplitLines(log);
    var folded := Seamed(lines, anchor, Render(fragments));
    var head, tail := lines[..anchor + 1], lines[anchor + 1..];
    ContentOfSeam(log, anchor, Render(fragments));
    ContentOfRender(fragments);
    CountAnchorsSkipsBlanks(SplitLines(folded));
    CountAnchorsSkipsBlanks(head);
    CountAnchorsSkipsBlanks(tail);
    CountAnchorsAppend(NonBlank(head) + Contents(fragments), NonBlank(tail));
    CountAnchorsAppend(NonBlank(head), Contents(fragments));
    CountAnchorsAppend(head, tail);
    assert lines == head + tail;
  }

  /** After folding valid fragments in, the log can be folded into again if and only if no fragment holds a line
      that strips to the heading. */
  lemma OneAnchorIff(log: string, anchor: nat, fragments: seq<Fragment>)
    requires anchor < |SplitLines(log)| && CountAnchors(SplitLines(log)) == 1
    ensures var folded := Seamed(SplitLines(log), anchor, Render(fragments));
      CountAnchors(SplitLines(folded)) == 1 <==> forall i :: 0 <= i < |Contents(fragments)| ==>
        !IsAnchor(Contents(fragments)[i])
  {
    FoldedAnchors(log, anchor, fragments);
    NoAnchors(Contents(fragments));
  }

  /** The check reads lines as written and the anchor reads them stripped: a fragment whose second line is an
      indented heading is valid and, folded in, leaves a log nothing can be folded into again. */
  lemma StrippedAnchorPasses(number: nat, heading: string, indented: string)
    requires !IsPlaceholderNumber(number)
    requires IsLine(heading) && IsHeading(heading) && IsLine(indented) && IsAnchor(indented)
    requires !IsSection(indented) && !IsEntry(indented)
    ensures var f := Fragment("1-a.md", number, heading + ['\n'] + indented);
      IsValid(f) && CountAnchors(Contents([f])) == 1
  {
    var f := Fragment("1-a.md", number, heading + ['\n'] + indented);
    assert heading[4] == heading[4] && |indented| > 0;
    SplitAtBreak(heading, '\n', indented);
    SplitOneLine(indented);
    HeadingLine(heading);
    InkIsNotBlank(heading, 4);
    EntryIsNoAnchor(heading);
    assert !IsSection(heading) by { assert heading[2] == heading[..4][2]; }
    assert !Blank(indented);
    hide IsAnchor, IsSection, IsEntry, IsHeading, Blank, IsLine, SplitLines;
    assert SplitLines(f.body) == [heading] + [indented];
    OneLine(heading);
    OneLine(indented);
    NonBlankAppend([heading], [indented]);
    CountEntriesAppend([heading], [indented]);
    CountAnchorsAppend([heading], [indented]);
    assert Contents([f]) == Content(f.body) by { assert |[f][1..]| == 0; }
  }

  lemma OneLine(line: string)
    ensures NonBlank([line]) == if Blank(line) then [] else [line]
    ensures CountEntries([line]) == if IsEntry(line) then 1 else 0
    ensures CountAnchors([line]) == if IsAnchor(line) then 1 else 0
  {
    assert |[line][1..]| == 0;
  }

  lemma {:induction false} CountEntriesAppend(a: seq<string>, b: seq<string>)
    ensures CountEntries(a + b) == CountEntries(a) + CountEntries(b)
  {
    if |a| == 0 {
      assert a + b == b;
    } else {
      CountEntriesAppend(a[1..], b);
      assert (a + b)[1..] == a[1..] + b;
    }
  }

  /** Such a line exists: the heading after one space. */
  lemma IndentedHeadingIsAnchor()
    ensures IsLine(" ## [Unreleased]") && IsAnchor(" ## [Unreleased]")
    ensures !IsSection(" ## [Unreleased]") && !IsEntry(" ## [Unreleased]")
  {
    hide IsAnchor, IsSection, IsEntry;
    assert " ## [Unreleased]"[1..] == UNRELEASED_HEADING;
    IndentIsStripped(" ## [Unreleased]");
    IndentedIsPlain(" ## [Unreleased]");
  }

  lemma IndentIsStripped(line: string)
    requires |line| > 0 && line[0] == ' ' && line[1..] == UNRELEASED_HEADING
    ensures IsAnchor(line)
  {
    assert LStrip(line) == LStrip(UNRELEASED_HEADING);
  }

  lemma IndentedIsPlain(line: string)
    requires |line| > 4 && line[0] == ' '
    ensures !IsSection(line) && !IsEntry(line)
  {
    assert line[..3][0] == ' ' && line[..4][0] == ' ';
  }

  /** A line closed by a break is still that one line. */
  lemma {:induction false} HeadingLine(line: string)
    requires IsLine(line) && |line| > 0
    ensures SplitLines(line + ['\n']) == [line]
  {
    assert (line + ['\n'])[1..] == line[1..] + ['\n'];
    if |line| == 1 {
      SplitCharThen('\n', "");
      assert line[1..] + ['\n'] == ['\n'] + "";
      assert [line[0]] + "" == line && [""][1..] == [];
    } else {
      HeadingLine(line[1..]);
      assert [line[0]] + line[1..] == line && [line[1..]][1..] == [];
    }
  }
}
