/** scripts/check_changelog_fragment.py: an entry may join `[Unreleased]` only with a consumed fragment's leave. */
module ChangelogGuard {
  import opened Options
  import opened Changelog
  import opened ChangelogApply
  import opened ChangelogSeam
  import opened Text
  import Order

  method UnreleasedEntries(log: string) returns (entries: seq<string>)
    ensures entries == Entries(log)
  {
    hide IsAnchor, IsSection, IsEntry, SplitLines;
    entries := [];
    var inside := false;
    var lines := SplitLines(log);
    for i := 0 to |lines|
      invariant entries + Scan(lines[i..], inside) == Entries(log)
    {
      var line := lines[i];
      assert lines[i..][0] == line && lines[i..][1..] == lines[i + 1..];
      if IsAnchor(line) {
        inside := true;
        continue;
      }
      if inside && IsSection(line) {
        break;
      }
      if inside && IsEntry(line) {
        entries := entries + [RStrip(line)];
      }
    }
  }

  method ReadFragmentEntry(body: string) returns (entry: Option<string>)
    ensures entry == FragmentEntry(body)
  {
    hide Blank, IsEntry, SplitLines;
    var lines := SplitLines(body);
    for i := 0 to |lines|
      invariant NonBlank(lines[i..]) == NonBlank(lines)
    {
      assert lines[i..][1..] == lines[i + 1..];
      if Blank(lines[i]) {
        continue;
      }
      return if IsEntry(lines[i]) then Some(RStrip(lines[i])) else None;
    }
    entry := None;
  }

  /** Counter subtraction, listed in order. */
  function Surplus(from: seq<string>, taken: seq<string>): seq<string>
  {
    Order.SortedBag(multiset(from) - multiset(taken))
  }

  function AddedEntries(base: seq<string>, head: seq<string>): seq<string>
  {
    Surplus(head, base)
  }

  function UnaccountedEntries(added: seq<string>, consumed: seq<string>): seq<string>
  {
    Surplus(added, consumed)
  }

  /** The accounted entries of the report: every added entry is on exactly one side, and no heading is accounted
      for more often than consumed fragments carry it. */
  lemma AccountsSplitTheAdded(added: seq<string>, consumed: seq<string>)
    ensures var unaccounted := UnaccountedEntries(added, consumed);
      var accounted := UnaccountedEntries(added, unaccounted);
      && multiset(accounted) + multiset(unaccounted) == multiset(added)
      && multiset(accounted) <= multiset(consumed)
  {
    var unaccounted := UnaccountedEntries(added, consumed);
    var accounted := UnaccountedEntries(added, unaccounted);
    hide Order.SortedBag;
    TakenTwice(multiset(added), multiset(consumed), multiset(unaccounted), multiset(accounted));
  }

  lemma TakenTwice(added: multiset<string>, consumed: multiset<string>, unaccounted: multiset<string>,
      accounted: multiset<string>)
    requires unaccounted == added - consumed && accounted == added - unaccounted
    ensures accounted + unaccounted == added && accounted <= consumed
  {
  }

  // The verdict of `main`.

  /** The fragment files the branch deleted; only the documentation file is passed over. */
  function DeletedFragments(base: Directory, head: Directory): set<string>
  {
    set name | name in base && name !in head && name != "README.md"
  }

  /** The fragment files the branch added or modified, neither documentation nor hidden. */
  function ChangedFragments(base: Directory, head: Directory): (names: set<string>)
    ensures forall name :: name in names <==>
      name in head && name != "README.md" && (name != "" ==> name[0] != '.')
        && (name in base ==> base[name] != head[name])
  {
    set name | name in head && !(name in base && base[name] == head[name]) && !IsReserved(name)
  }

  /** The assembler would refuse this file. */
  predicate IsProblem(head: Directory, name: string)
    requires name in head
  {
    NameNumber(name) == None || !IsValid(Fragment(name, NameNumber(name).value, head[name]))
  }

  /** The entry headings of some files, in the order given. */
  function EntriesOf(dir: Directory, names: seq<string>): seq<string>
    requires forall i :: 0 <= i < |names| ==> names[i] in dir
  {
    if |names| == 0 then []
    else
      var last := FragmentEntry(dir[names[|names| - 1]]);
      EntriesOf(dir, names[..|names| - 1]) + if last.Some? then [last.value] else []
  }

  lemma SortedIn(names: set<string>)
    ensures forall i :: 0 <= i < |Order.Sorted(names)| ==> Order.Sorted(names)[i] in names
  {
    assert forall i :: 0 <= i < |Order.Sorted(names)| ==> Order.Sorted(names)[i] in Order.Elements(Order.Sorted(names));
  }

  /** What the deleted fragments account for. */
  function ConsumedEntries(base: Directory, head: Directory): seq<string>
  {
    SortedIn(DeletedFragments(base, head));
    EntriesOf(base, Order.Sorted(DeletedFragments(base, head)))
  }

  /** The files that carry a heading. */
  ghost function Carrying(dir: Directory, names: set<string>, heading: string): set<string>
  {
    set name | name in names && name in dir && FragmentEntry(dir[name]) == Some(heading)
  }

  lemma OneMoreCarrying(dir: Directory, names: set<string>, last: string, heading: string)
    requires last in dir && last !in names
    ensures |Carrying(dir, names + {last}, heading)|
      == |Carrying(dir, names, heading)| + if FragmentEntry(dir[last]) == Some(heading) then 1 else 0
  {
    hide FragmentEntry;
    assert Carrying(dir, names + {last}, heading)
      == Carrying(dir, names, heading) + if FragmentEntry(dir[last]) == Some(heading) then {last} else {};
  }

  lemma OneMoreEntry(dir: Directory, names: seq<string>, last: string, heading: string)
    requires last in dir && forall i :: 0 <= i < |names| ==> names[i] in dir
    ensures multiset(EntriesOf(dir, names + [last]))[heading]
      == multiset(EntriesOf(dir, names))[heading] + if FragmentEntry(dir[last]) == Some(heading) then 1 else 0
  {
    hide FragmentEntry;
    assert (names + [last])[..|names|] == names;
  }

  lemma {:induction false} EntriesAreCounted(dir: Directory, names: seq<string>, heading: string)
    requires Order.Distinct(names) && forall i :: 0 <= i < |names| ==> names[i] in dir
    ensures multiset(EntriesOf(dir, names))[heading] == |Carrying(dir, Order.Elements(names), heading)|
  {
    hide FragmentEntry, EntriesOf, Carrying;
    if |names| > 0 {
      var init, last := names[..|names| - 1], names[|names| - 1];
      EntriesAreCounted(dir, init, heading);
      assert names == init + [last] && last !in Order.Elements(init);
      assert Order.Elements(names) == Order.Elements(init) + {last};
      OneMoreEntry(dir, init, last, heading);
      OneMoreCarrying(dir, Order.Elements(init), last, heading);
    } else {
      NoEntries(dir, heading);
    }
  }

  lemma NoEntries(dir: Directory, heading: string)
    ensures EntriesOf(dir, []) == [] && Carrying(dir, {}, heading) == {} && Order.Elements<string>([]) == {}
  {
  }

  /** A heading is accounted for once by each file that carried it, is gone, and is not the documentation. */
  lemma ConsumedAreCounted(base: Directory, head: Directory, heading: string)
    ensures multiset(ConsumedEntries(base, head))[heading] == |set name | name in base && name !in head
      && name != "README.md" && FragmentEntry(base[name]) == Some(heading)|
  {
    var deleted := DeletedFragments(base, head);
    SortedIn(deleted);
    EntriesAreCounted(base, Order.Sorted(deleted), heading);
    assert Carrying(base, deleted, heading) == set name | name in base && name !in head
      && name != "README.md" && FragmentEntry(base[name]) == Some(heading);
  }

  method Check(baseLog: string, baseDir: Directory, headLog: string, headDir: Directory)
      returns (status: nat, unaccounted: seq<string>, problems: set<string>)
    ensures unaccounted
      == UnaccountedEntries(AddedEntries(Entries(baseLog), Entries(headLog)), ConsumedEntries(baseDir, headDir))
    ensures forall name :: name in problems <==> name in ChangedFragments(baseDir, headDir) && IsProblem(headDir, name)
    ensures status <= 1 && (status == 0 <==> unaccounted == [] && problems == {})
  {
    hide Entries, FragmentEntry, NameNumber, IsValid, Order.Sorted, Surplus, IsReserved;
    var baseEntries := UnreleasedEntries(baseLog);
    var headEntries := UnreleasedEntries(headLog);
    var deleted := Order.Sorted(DeletedFragments(baseDir, headDir));
    SortedIn(DeletedFragments(baseDir, headDir));
    var consumed: seq<string> := [];
    for i := 0 to |deleted|
      invariant consumed == EntriesOf(baseDir, deleted[..i])
    {
      assert deleted[..i + 1][..i] == deleted[..i];
      var entry := ReadFragmentEntry(baseDir[deleted[i]]);
      if entry.Some? {
        consumed := consumed + [entry.value];
      }
    }
    assert deleted[..|deleted|] == deleted;
    problems := {};
    var changed := ChangedFragments(baseDir, headDir);
    var left := changed;
    while left != {}
      invariant left <= changed
      invariant forall name :: name in problems <==> name in changed && name !in left && IsProblem(headDir, name)
      decreases |left|
    {
      var name :| name in left;
      left := left - {name};
      var number := NameNumber(name);
      if number == None {
        problems := problems + {name};
        continue;
      }
      var found := ValidateFragment(Fragment(name, number.value, headDir[name]));
      if found != [] {
        problems := problems + {name};
      }
    }
    unaccounted := UnaccountedEntries(AddedEntries(baseEntries, headEntries), consumed);
    status := if unaccounted != [] || problems != {} then 1 else 0;
  }

  // Assemble, then check.

  lemma {:induction false} EntriesOfAreHeadings(dir: Directory, names: seq<string>)
    requires forall i :: 0 <= i < |names| ==> names[i] in dir && NameNumber(names[i]).Some?
    ensures EntriesOf(dir, names) == Headings(Read(dir, names))
  {
    hide NameNumber;
    if |names| > 0 {
      var init, last := names[..|names| - 1], names[|names| - 1];
      EntriesOfAreHeadings(dir, init);
      var fragment := Fragment(last, NameNumber(last).value, dir[last]);
      assert Read(dir, names) == Read(dir, init) + [fragment];
      HeadingsAppend(Read(dir, init), [fragment]);
      assert |[fragment][1..]| == 0;
    }
  }

  /** When exactly the fragments are deleted, they account for exactly their headings. */
  lemma ConsumedAreHeadings(base: Directory, head: Directory)
    requires WellNamed(base) && DeletedFragments(base, head) == FragmentNames(base)
    ensures multiset(ConsumedEntries(base, head)) == multiset(Headings(Pending(base)))
  {
    SortedIn(FragmentNames(base));
    var names := Order.Sorted(FragmentNames(base));
    hide Order.Sorted, NameNumber;
    EntriesOfAreHeadings(base, names);
    NewestFirstSorts(Read(base, names));
  }

  /** Fold every fragment in, delete the files, and add any entries by hand: the check names exactly those added. */
  lemma AssembleThenCheck(baseLog: string, baseDir: Directory, anchor: nat, headLog: string, headDir: Directory,
      extra: multiset<string>)
    requires Foldable(baseDir) && anchor < |SplitLines(baseLog)| && IsAnchor(SplitLines(baseLog)[anchor])
    requires CountAnchors(SplitLines(baseLog)) == 1
    requires multiset(Entries(headLog))
      == multiset(Entries(Seamed(SplitLines(baseLog), anchor, Render(Pending(baseDir))))) + extra
    requires DeletedFragments(baseDir, headDir) == FragmentNames(baseDir)
    ensures multiset(UnaccountedEntries(AddedEntries(Entries(baseLog), Entries(headLog)),
      ConsumedEntries(baseDir, headDir)))
      == extra
  {
    FoldedEntries(baseLog, anchor, Pending(baseDir));
    ConsumedAreHeadings(baseDir, headDir);
  }

  /** A block of lines with no section heading, written anywhere in the Unreleased section of a log, adds its own
      entries and no others. */
  lemma HandWrittenEntries(log: string, edited: string, anchor: nat, at: nat, block: seq<string>)
    requires anchor < at <= |SplitLines(log)| && IsAnchor(SplitLines(log)[anchor])
    requires forall i :: 0 <= i < anchor ==> !IsAnchor(SplitLines(log)[i])
    requires NoSection(SplitLines(log)[anchor + 1..at]) && NoSection(block)
    requires SplitLines(edited) == SplitLines(log)[..at] + block + SplitLines(log)[at..]
    ensures multiset(Entries(edited)) == multiset(Entries(log)) + multiset(Scan(block, true))
  {
    hide SplitLines, IsAnchor, NoSection, Scan;
    var lines := SplitLines(log);
    var before, heading, middle, rest := lines[..anchor], lines[anchor], lines[anchor + 1..at], lines[at..];
    ScanBeforeAnchor(before, [heading] + (middle + rest));
    ScanBeforeAnchor(before, [heading] + (middle + (block + rest)));
    AnchorLine(heading, middle + rest);
    AnchorLine(heading, middle + (block + rest));
    ScanThrough(middle, rest);
    ScanThrough(middle, block + rest);
    ScanThrough(block, rest);
    assert lines == before + ([heading] + (middle + rest));
    assert SplitLines(edited) == before + ([heading] + (middle + (block + rest)));
  }

  /** Fold every fragment in, delete the files, and write a block of lines into the folded log's Unreleased section: the
      check names exactly the entries of that block. */
  lemma AssembleWriteThenCheck(baseLog: string, baseDir: Directory, anchor: nat, headLog: string, headDir: Directory,
      at: nat, block: seq<string>)
    requires Foldable(baseDir) && anchor < |SplitLines(baseLog)| && IsAnchor(SplitLines(baseLog)[anchor])
    requires CountAnchors(SplitLines(baseLog)) == 1 && DeletedFragments(baseDir, headDir) == FragmentNames(baseDir)
    requires var folded := SplitLines(Seamed(SplitLines(baseLog), anchor, Render(Pending(baseDir))));
      && anchor < at <= |folded| && NoSection(folded[anchor + 1..at]) && NoSection(block)
      && SplitLines(headLog) == folded[..at] + block + folded[at..]
    ensures multiset(UnaccountedEntries(AddedEntries(Entries(baseLog), Entries(headLog)),
      ConsumedEntries(baseDir, headDir)))
      == multiset(Scan(block, true))
  {
    hide SplitLines, Seamed, IsAnchor, NoSection, Scan, Entries, Render, Pending, CountAnchors, DeletedFragments;
    var lines, folded := SplitLines(baseLog), Seamed(SplitLines(baseLog), anchor, Render(Pending(baseDir)));
    LinesOfSeam(baseLog, anchor, Render(Pending(baseDir)));
    HeadStays(lines, anchor, Render(Pending(baseDir)));
    OnlyAnchor(lines, anchor);
    HandWrittenEntries(folded, headLog, anchor, at, block);
    AssembleThenCheck(baseLog, baseDir, anchor, headLog, headDir, multiset(Scan(block, true)));
  }

  lemma HeadStays(lines: seq<string>, anchor: nat, rendered: string)
    requires anchor < |lines|
    ensures |SeamedLines(lines, anchor, rendered)| > anchor
    ensures forall i :: 0 <= i <= anchor ==> SeamedLines(lines, anchor, rendered)[i] == lines[i]
  {
  }

  /** A release run and nothing else is never refused. */
  lemma ReleaseIsSilent(baseLog: string, baseDir: Directory, anchor: nat)
    requires Foldable(baseDir) && anchor < |SplitLines(baseLog)| && IsAnchor(SplitLines(baseLog)[anchor])
    requires CountAnchors(SplitLines(baseLog)) == 1
    ensures var headLog := Seamed(SplitLines(baseLog), anchor, Render(Pending(baseDir)));
      var headDir := Without(baseDir, Pending(baseDir));
      && UnaccountedEntries(AddedEntries(Entries(baseLog), Entries(headLog)), ConsumedEntries(baseDir, headDir)) == []
      && ChangedFragments(baseDir, headDir) == {}
  {
    var headLog := Seamed(SplitLines(baseLog), anchor, Render(Pending(baseDir)));
    var headDir := Without(baseDir, Pending(baseDir));
    NothingLeft(baseDir);
    PendingNames(baseDir);
    forall name
      ensures name in DeletedFragments(baseDir, headDir) <==> name in FragmentNames(baseDir)
    {
      if name in DeletedFragments(baseDir, headDir) {
        var f :| f in Pending(baseDir) && f.name == name;
        assert IsFileOf(baseDir, f);
      }
      if name in FragmentNames(baseDir) {
        assert name !in FragmentNames(headDir);
      }
    }
    AssembleThenCheck(baseLog, baseDir, anchor, headLog, headDir, multiset{});
    var unaccounted := UnaccountedEntries(AddedEntries(Entries(baseLog), Entries(headLog)),
      ConsumedEntries(baseDir, headDir));
    Order.SameSize(unaccounted, []);
  }
}
