/** scripts/assemble_changelog.py: collecting the fragment directory and `apply`. */
module ChangelogApply {
  import opened Options
  import opened Changelog
  import opened Numerals
  import opened Text
  import Order

  /** A fragment directory: file name to contents. */
  type Directory = map<string, string>

  predicate IsReserved(name: string)
  {
    name == "README.md" || StartsWith(name, ".")
  }

  predicate IsSlugWord(s: string)
  {
    |s| > 0 && forall i :: 0 <= i < |s| ==> '0' <= s[i] <= '9' || 'a' <= s[i] <= 'z'
  }

  function StemNumber(stem: string): Option<nat>
  {
    var parts := Split(stem, '-');
    if |parts| >= 2 && IsDigits(parts[0]) && forall i :: 1 <= i < |parts| ==> IsSlugWord(parts[i])
    then Some(Value(parts[0]))
    else None
  }

  /** The number of a name of the form `<number>-<slug>.md`; the pattern's `$` also lets one final newline pass. */
  function NameNumber(name: string): Option<nat>
  {
    var core := if |name| > 0 && name[|name| - 1] == '\n' then name[..|name| - 1] else name;
    if |core| < 3 || core[|core| - 3..] != ".md" then None else StemNumber(core[..|core| - 3])
  }

  // The names, told from their parts.

  /** A word of digits and lower-case letters. */
  ghost predicate IsWord(s: string)
  {
    |s| > 0 && forall i :: 0 <= i < |s| ==> s[i] in "0123456789abcdefghijklmnopqrstuvwxyz"
  }

  ghost predicate IsNumber(s: string)
  {
    |s| > 0 && forall i :: 0 <= i < |s| ==> s[i] in "0123456789"
  }

  lemma NumberIff(s: string)
    ensures IsNumber(s) <==> IsDigits(s)
  {
  }

  /** The digits of a number, a hyphen, words joined by hyphens, `.md`, and perhaps a newline. */
  ghost predicate IsNameOf(name: string, digits: string, words: seq<string>, end: string)
  {
    && IsNumber(digits) && |words| > 0 && (forall i :: 0 <= i < |words| ==> IsWord(words[i]))
    && (end == "" || end == "\n") && name == digits + "-" + Join(words, "-") + ".md" + end
  }

  lemma WordIff(s: string)
    ensures IsWord(s) <==> IsSlugWord(s)
  {
  }

  lemma DashFree(s: string)
    requires IsWord(s) || IsDigits(s)
    ensures '-' !in s
  {
  }

  lemma StemParts(stem: string) returns (digits: string, words: seq<string>)
    requires StemNumber(stem).Some?
    ensures IsNameOf(stem + ".md", digits, words, "") && IsDigits(digits) && Value(digits) == StemNumber(stem).value
    ensures stem == digits + "-" + Join(words, "-")
  {
    var parts := Split(stem, '-');
    digits, words := parts[0], parts[1..];
    JoinSplit(stem, '-');
    hide IsSlugWord, IsWord, Split;
    forall i | 0 <= i < |words| ensures IsWord(words[i]) {
      WordIff(parts[i + 1]);
      assert words[i] == parts[i + 1];
    }
    NumberIff(digits);
    assert stem + ".md" + "" == stem + ".md";
  }

  lemma StemOfParts(digits: string, words: seq<string>)
    requires IsDigits(digits) && |words| > 0 && forall i :: 0 <= i < |words| ==> IsWord(words[i])
    ensures StemNumber(digits + "-" + Join(words, "-")) == Some(Value(digits))
  {
    var parts, stem := [digits] + words, digits + "-" + Join(words, "-");
    assert parts[1..] == words;
    assert Join(parts, "-") == stem;
    forall i | 0 <= i < |parts| ensures '-' !in parts[i] {
      DashFree(parts[i]);
    }
    hide Split, Join;
    SplitJoin(parts, '-');
    hide IsSlugWord, IsWord;
    forall i | 1 <= i < |parts| ensures IsSlugWord(parts[i]) {
      WordIff(words[i - 1]);
      assert parts[i] == words[i - 1];
    }
  }

  lemma NameOfStem(stem: string, end: string)
    requires end == "" || end == "\n"
    ensures NameNumber(stem + ".md" + end) == StemNumber(stem)
  {
    var core := stem + ".md";
    var name := core + end;
    hide StemNumber;
    assert core[|core| - 3..] == ".md" && core[..|core| - 3] == stem;
    if end == "\n" {
      assert name[..|name| - 1] == core;
    } else {
      assert name == core && name[|name| - 1] == 'd';
    }
  }

  lemma StemOfName(name: string) returns (stem: string, end: string)
    requires NameNumber(name).Some?
    ensures (end == "" || end == "\n") && name == stem + ".md" + end
  {
    hide StemNumber;
    end := if |name| > 0 && name[|name| - 1] == '\n' then "\n" else "";
    var core := name[..|name| - |end|];
    stem := core[..|core| - 3];
    assert name == core + end && core == stem + ".md";
  }

  /** A name has a number exactly when it is made of such parts, and then it is theirs. */
  lemma NameNumberIff(name: string, n: nat)
    ensures NameNumber(name) == Some(n) <==>
      exists digits, words, end :: IsNameOf(name, digits, words, end) && IsDigits(digits) && Value(digits) == n
  {
    if NameNumber(name).Some? {
      var stem, end := StemOfName(name);
      NameOfStem(stem, end);
      var digits, words := StemParts(stem);
      assert IsNameOf(name, digits, words, end);
    }
    if digits, words, end :| IsNameOf(name, digits, words, end) && IsDigits(digits) && Value(digits) == n {
      StemOfParts(digits, words);
      NameOfStem(digits + "-" + Join(words, "-"), end);
    }
  }

  // Newest number first, then by name.

  predicate Precedes(f: Fragment, g: Fragment)
  {
    f.number > g.number || (f.number == g.number && Order.Leq(f.name, g.name))
  }

  function Insert(f: Fragment, s: seq<Fragment>): seq<Fragment>
  {
    if |s| == 0 then [f]
    else if Precedes(s[|s| - 1], f) then s + [f]
    else Insert(f, s[..|s| - 1]) + [s[|s| - 1]]
  }

  function NewestFirst(s: seq<Fragment>): seq<Fragment>
  {
    if |s| == 0 then [] else Insert(s[|s| - 1], NewestFirst(s[..|s| - 1]))
  }

  ghost predicate Ordered(s: seq<Fragment>)
  {
    forall i, j :: 0 <= i < j < |s| ==> Precedes(s[i], s[j])
  }

  lemma PrecedesTotal(f: Fragment, g: Fragment)
    ensures Precedes(f, g) || Precedes(g, f)
  {
    Order.LeqTotal(f.name, g.name);
  }

  lemma PrecedesTransitive(f: Fragment, g: Fragment, h: Fragment)
    requires Precedes(f, g) && Precedes(g, h)
    ensures Precedes(f, h)
  {
    if f.number == g.number && g.number == h.number {
      Order.LeqTransitive(f.name, g.name, h.name);
    }
  }

  lemma {:induction false} InsertBag(f: Fragment, s: seq<Fragment>)
    ensures multiset(Insert(f, s)) == multiset(s) + multiset{f}
  {
    hide Precedes;
    if |s| > 0 {
      assert s == s[..|s| - 1] + [s[|s| - 1]];
      InsertBag(f, s[..|s| - 1]);
    }
  }

  lemma {:induction false} InsertHeadings(f: Fragment, s: seq<Fragment>)
    ensures multiset(Headings(Insert(f, s))) == multiset(Headings(s)) + multiset(Headings([f]))
  {
    if |s| == 0 {
      assert multiset(Headings([f])) == multiset(Headings(s)) + multiset(Headings([f]));
    } else {
      hide Precedes, Headings;
      var init, last := s[..|s| - 1], s[|s| - 1];
      assert s == init + [last];
      HeadingsAppend(init, [last]);
      HeadingsAppend(s, [f]);
      InsertHeadings(f, init);
      HeadingsAppend(Insert(f, init), [last]);
    }
  }

  lemma {:induction false} HeadingsAppend(a: seq<Fragment>, b: seq<Fragment>)
    ensures Headings(a + b) == Headings(a) + Headings(b)
  {
    hide FragmentEntry;
    if |a| == 0 {
      assert a + b == b;
    } else {
      HeadingsAppend(a[1..], b);
      assert (a + b)[1..] == a[1..] + b;
      var first := match FragmentEntry(a[0].body) case Some(h) => [h] case None => [];
      Associates(first, Headings(a[1..]), Headings(b));
    }
  }

  lemma {:induction false} InsertOrdered(f: Fragment, s: seq<Fragment>)
    requires Ordered(s)
    ensures Ordered(Insert(f, s))
  {
    hide Precedes;
    if |s| > 0 {
      var init, last := s[..|s| - 1], s[|s| - 1];
      if Precedes(last, f) {
        forall i | 0 <= i < |s| ensures Precedes(s[i], f) {
          if i < |s| - 1 { PrecedesTransitive(s[i], last, f); }
        }
      } else {
        PrecedesTotal(f, last);
        InsertOrdered(f, init);
        InsertBag(f, init);
        var r := Insert(f, init);
        forall i | 0 <= i < |r| ensures Precedes(r[i], last) {
          assert r[i] in multiset(r);
          assert r[i] == f || r[i] in init;
        }
      }
    }
  }

  /** Sorting keeps the fragments, orders them newest first, and keeps the bag of their headings. */
  lemma {:induction false} NewestFirstSorts(s: seq<Fragment>)
    ensures multiset(NewestFirst(s)) == multiset(s)
    ensures Ordered(NewestFirst(s))
    ensures multiset(Headings(NewestFirst(s))) == multiset(Headings(s))
  {
    if |s| > 0 {
      var init, last := s[..|s| - 1], s[|s| - 1];
      assert s == init + [last];
      NewestFirstSorts(init);
      InsertBag(last, NewestFirst(init));
      InsertHeadings(last, NewestFirst(init));
      InsertOrdered(last, NewestFirst(init));
      HeadingsAppend(init, [last]);
    }
  }

  // Reading the directory.

  datatype Collection = Fragments(fragments: seq<Fragment>) | Misnamed(name: string)

  /** The files that are no documentation and not hidden. */
  function FragmentNames(dir: Directory): (names: set<string>)
    ensures forall name :: name in names <==>
      name in dir && name != "README.md" && (name != "" ==> name[0] != '.')
  {
    set name | name in dir && !IsReserved(name)
  }

  /** The fragments of some of the directory's files, in the order given. */
  function Read(dir: Directory, names: seq<string>): seq<Fragment>
    requires forall i :: 0 <= i < |names| ==> names[i] in dir && NameNumber(names[i]).Some?
  {
    seq(|names|, i requires 0 <= i < |names| => Fragment(names[i], NameNumber(names[i]).value, dir[names[i]]))
  }

  predicate WellNamed(dir: Directory)
  {
    forall name :: name in FragmentNames(dir) ==> NameNumber(name).Some?
  }

  /** What the directory holds, once every file in it is well named. */
  function Pending(dir: Directory): seq<Fragment>
    requires WellNamed(dir)
  {
    var names := Order.Sorted(FragmentNames(dir));
    assert forall i :: 0 <= i < |names| ==> names[i] in Order.Elements(names);
    NewestFirst(Read(dir, names))
  }

  method CollectFragments(dir: Directory) returns (r: Collection)
    ensures r.Fragments? <==> WellNamed(dir)
    ensures r.Fragments? ==> r.fragments == Pending(dir)
    ensures r.Misnamed? ==> r.name in FragmentNames(dir) && NameNumber(r.name) == None
  {
    hide Order.Ascending, Order.Distinct, NameNumber, NewestFirst, IsReserved, KeepFragments, Read;
    ReadNothing(dir);
    var names := Order.Sorted(dir.Keys);
    var fragments: seq<Fragment> := [];
    ghost var kept: seq<string> := [];
    KeepNothing();
    for i := 0 to |names|
      invariant forall k :: 0 <= k < |kept| ==> kept[k] in dir && !IsReserved(kept[k]) && NameNumber(kept[k]).Some?
      invariant fragments == Read(dir, kept)
      invariant kept == KeepFragments(names[..i])
    {
      assert names[..i + 1] == names[..i] + [names[i]];
      KeepAppend(names[..i], names[i]);
      assert names[i] in Order.Elements(names);
      if IsReserved(names[i]) {
        continue;
      }
      var number := NameNumber(names[i]);
      if number == None {
        return Misnamed(names[i]);
      }
      ReadMore(dir, kept, names[i]);
      fragments := fragments + [Fragment(names[i], number.value, dir[names[i]])];
      kept := kept + [names[i]];
    }
    assert names[..|names|] == names;
    KeepSorted(names, FragmentNames(dir));
    assert WellNamed(dir) by {
      forall name | name in FragmentNames(dir) ensures NameNumber(name).Some? {
        assert name in Order.Elements(kept);
      }
    }
    r := Fragments(NewestFirst(fragments));
  }

  lemma ReadNothing(dir: Directory)
    ensures Read(dir, []) == []
  {
  }

  lemma ReadMore(dir: Directory, names: seq<string>, name: string)
    requires forall i :: 0 <= i < |names| ==> names[i] in dir && NameNumber(names[i]).Some?
    requires name in dir && NameNumber(name).Some?
    ensures Read(dir, names + [name]) == Read(dir, names) + [Fragment(name, NameNumber(name).value, dir[name])]
  {
    hide NameNumber;
  }

  function KeepFragments(names: seq<string>): seq<string>
  {
    if |names| == 0 then []
    else KeepFragments(names[..|names| - 1]) + if IsReserved(names[|names| - 1]) then [] else [names[|names| - 1]]
  }

  lemma KeepNothing()
    ensures KeepFragments([]) == []
  {
  }

  lemma KeepAppend(names: seq<string>, name: string)
    ensures KeepFragments(names + [name]) == KeepFragments(names) + if IsReserved(name) then [] else [name]
  {
    assert (names + [name])[..|names|] == names;
  }

  lemma {:induction false} KeepElements(names: seq<string>, x: string)
    ensures x in KeepFragments(names) <==> x in names && !IsReserved(x)
  {
    if |names| > 0 {
      KeepElements(names[..|names| - 1], x);
      assert names == names[..|names| - 1] + [names[|names| - 1]];
    }
  }

  lemma {:induction false} KeepIsSorted(names: seq<string>)
    requires Order.Ascending(names) && Order.Distinct(names)
    ensures Order.Ascending(KeepFragments(names)) && Order.Distinct(KeepFragments(names))
  {
    hide Order.Leq;
    if |names| > 0 {
      var init, last := names[..|names| - 1], names[|names| - 1];
      KeepIsSorted(init);
      var kept := KeepFragments(init);
      forall i | 0 <= i < |kept| ensures Order.Leq(kept[i], last) && kept[i] != last {
        KeepElements(init, kept[i]);
        var k :| 0 <= k < |init| && init[k] == kept[i];
        assert names[k] == kept[i];
      }
    }
  }

  lemma KeepSorted(names: seq<string>, wanted: set<string>)
    requires Order.Ascending(names) && Order.Distinct(names)
    requires wanted == set x | x in names && !IsReserved(x)
    ensures KeepFragments(names) == Order.Sorted(wanted)
    ensures Order.Elements(KeepFragments(names)) == wanted
  {
    KeepIsSorted(names);
    var kept := KeepFragments(names);
    forall x ensures x in kept <==> x in wanted { KeepElements(names, x); }
    Order.DistinctIsSet(kept);
    Order.DistinctIsSet(Order.Sorted(wanted));
    assert Order.Elements(kept) == wanted;
    hide KeepFragments;
    Order.AscendingIsUnique(kept, Order.Sorted(wanted));
  }

  // Folding.

  /** The directory can be folded in: every file well named, every fragment valid. */
  ghost predicate Foldable(dir: Directory)
  {
    WellNamed(dir) && AllValid(Pending(dir))
  }

  /** `f` is what the directory holds under its name. */
  predicate IsFileOf(dir: Directory, f: Fragment)
  {
    f.name in FragmentNames(dir) && NameNumber(f.name).Some?
      && f == Fragment(f.name, NameNumber(f.name).value, dir[f.name])
  }

  lemma ReadMembers(dir: Directory, names: seq<string>, f: Fragment)
    requires forall i :: 0 <= i < |names| ==> names[i] in dir && NameNumber(names[i]).Some?
    requires Order.Elements(names) == FragmentNames(dir)
    ensures f in Read(dir, names) <==> IsFileOf(dir, f)
  {
    hide NameNumber;
    var read := Read(dir, names);
    if f in read {
      var i :| 0 <= i < |read| && read[i] == f;
      assert names[i] in Order.Elements(names);
    }
    if IsFileOf(dir, f) {
      assert f.name in Order.Elements(names);
      var i :| 0 <= i < |names| && names[i] == f.name;
      assert read[i] == f;
    }
  }

  /** The pending fragments are the directory's fragment files, each once. */
  lemma PendingNames(dir: Directory)
    requires WellNamed(dir)
    ensures forall f :: f in Pending(dir) <==> IsFileOf(dir, f)
    ensures |Pending(dir)| == |FragmentNames(dir)|
  {
    var names := Order.Sorted(FragmentNames(dir));
    assert forall i :: 0 <= i < |names| ==> names[i] in Order.Elements(names);
    var read := Read(dir, names);
    NewestFirstSorts(read);
    Order.SameSize(Pending(dir), read);
    forall f
      ensures f in Pending(dir) <==> IsFileOf(dir, f)
    {
      ReadMembers(dir, names, f);
      SameMembers(Pending(dir), read, f);
    }
  }

  lemma SameMembers<T>(s: seq<T>, t: seq<T>, x: T)
    requires multiset(s) == multiset(t)
    ensures x in s <==> x in t
  {
    assert x in s <==> x in multiset(s);
  }

  /** The directory with the files of some fragments deleted. */
  function Without(dir: Directory, consumed: seq<Fragment>): Directory
  {
    dir - set f | f in consumed :: f.name
  }

  /** Deleting every pending fragment leaves none pending. */
  lemma NothingLeft(dir: Directory)
    requires WellNamed(dir)
    ensures FragmentNames(Without(dir, Pending(dir))) == {}
    ensures WellNamed(Without(dir, Pending(dir))) && Pending(Without(dir, Pending(dir))) == []
  {
    PendingNames(dir);
    var left, consumed := Without(dir, Pending(dir)), set f | f in Pending(dir) :: f.name;
    forall name | name in FragmentNames(dir)
      ensures name in consumed
    {
      assert Fragment(name, NameNumber(name).value, dir[name]) in Pending(dir);
    }
    PendingNames(left);
  }

  lemma RenderHasInk(fragments: seq<Fragment>)
    requires |fragments| > 0 && AllValid(fragments)
    ensures Render(fragments) != ""
  {
    ContentOfRender(fragments);
    EmptyContent();
    hide Render;
    assert |Content(fragments[0].body)| > 0;
  }

  datatype Outcome = InvalidFragments | BadLog(found: nat) | Consumed(fragments: seq<Fragment>)

  /** The headings waiting in a fragment directory. */
  ghost function Waiting(dir: Directory): multiset<string>
  {
    if WellNamed(dir) then multiset(Headings(Pending(dir))) else multiset{}
  }

  lemma FoldConserves(log: string, dir: Directory, anchor: nat)
    requires Foldable(dir) && anchor < |SplitLines(log)| && IsAnchor(SplitLines(log)[anchor])
      && CountAnchors(SplitLines(log)) == 1
    ensures multiset(Entries(Seamed(SplitLines(log), anchor, Render(Pending(dir)))))
      == multiset(Entries(log)) + Waiting(dir)
  {
    FoldedEntries(log, anchor, Pending(dir));
  }

  lemma NothingWaits(dir: Directory)
    requires WellNamed(dir)
    ensures Waiting(Without(dir, Pending(dir))) == multiset{}
  {
    NothingLeft(dir);
  }

  class Repository {
    var log: string
    var fragments: Directory

    /** Everything the log's open section or the directory announces. */
    ghost function Announced(): multiset<string>
      reads this
    {
      multiset(Entries(log)) + Waiting(fragments)
    }

    method ValidateFragments() returns (ok: bool)
      ensures ok <==> Foldable(fragments)
    {
      hide IsValid, WellNamed, Pending;
      var collected := CollectFragments(fragments);
      if collected.Misnamed? {
        return false;
      }
      for i := 0 to |collected.fragments|
        invariant forall k :: 0 <= k < i ==> IsValid(collected.fragments[k])
      {
        var problems := ValidateFragment(collected.fragments[i]);
        if problems != [] {
          return false;
        }
      }
      ok := true;
    }

    /** Fold every fragment into the log and delete the files, or refuse and change nothing.
        Either way no announced entry is lost or doubled. */
    method Apply() returns (outcome: Outcome)
      modifies this
      ensures outcome.InvalidFragments? <==> !old(Foldable(fragments))
      ensures outcome.BadLog? <==>
        old(Foldable(fragments) && Pending(fragments) != [] && CountAnchors(SplitLines(log)) != 1)
      ensures outcome.BadLog? ==> outcome.found == old(CountAnchors(SplitLines(log)))
      ensures !outcome.Consumed? ==> log == old(log) && fragments == old(fragments)
      ensures outcome.Consumed? ==> outcome.fragments == old(Pending(fragments))
      ensures outcome.Consumed? ==> fragments == old(Without(fragments, Pending(fragments)))
      ensures outcome.Consumed? && outcome.fragments == [] ==> log == old(log)
      ensures outcome.Consumed? && outcome.fragments != [] ==>
        exists anchor :: 0 <= anchor < |SplitLines(old(log))| && IsAnchor(SplitLines(old(log))[anchor])
          && log == Seamed(SplitLines(old(log)), anchor, Render(outcome.fragments))
      ensures Announced() == old(Announced())
      ensures outcome.Consumed? ==> Waiting(fragments) == multiset{}
    {
      hide IsValid, WellNamed, Seamed, Render, Headings, Entries, AllValid, Pending, SplitLines, CountAnchors, IsAnchor;
      var ok := ValidateFragments();
      if !ok {
        return InvalidFragments;
      }
      var collected := CollectFragments(fragments);
      var pending := collected.fragments;
      NothingWaits(fragments);
      if |pending| == 0 {
        assert Without(fragments, pending) == fragments;
        return Consumed([]);
      }
      RenderHasInk(pending);
      var inserted := InsertIntoChangelog(log, Render(pending));
      if inserted.BadAnchors? {
        return BadLog(inserted.found);
      }
      ghost var anchor :| 0 <= anchor < |SplitLines(log)| && IsAnchor(SplitLines(log)[anchor])
        && inserted == Folded(Seamed(SplitLines(log), anchor, Render(pending)));
      FoldConserves(log, fragments, anchor);
      log := inserted.text;
      fragments := fragments - set f | f in pending :: f.name;
      outcome := Consumed(pending);
    }
  }
}
