/** Paths, as `pathlib` has them on POSIX. */
module Paths {
  import opened Options
  import opened Text

  datatype Path = Path(absolute: bool, parts: seq<string>)
  {
    function Parent(): Path
    {
      if |parts| == 0 then this else Path(absolute, parts[..|parts| - 1])
    }

    /** `path.parents[n]`, or nothing past the last of them. */
    function Ancestor(n: nat): Option<Path>
    {
      if n < |parts| then Some(Path(absolute, parts[..|parts| - 1 - n])) else None
    }

    function Joined(other: Path): Path
    {
      if other.absolute then other else Path(absolute, parts + other.parts)
    }

    /** Absolute, and with no way up in it. */
    predicate Plain()
    {
      absolute && ".." !in parts
    }
  }

  function NameIn(piece: string): seq<string>
  {
    if piece == "" || piece == "." then [] else [piece]
  }

  /** The pieces of a path text that name something. */
  function Named(pieces: seq<string>): seq<string>
  {
    if |pieces| == 0 then []
    else NameIn(pieces[0]) + Named(pieces[1..])
  }

  function Parse(text: string): Path
  {
    Path(|text| > 0 && text[0] == '/', Named(Split(text, '/')))
  }

  /** `..` goes up, and stays at the root: `resolve()` where nothing is a link. */
  function Collapsed(parts: seq<string>): seq<string>
  {
    if |parts| == 0 then []
    else
      var init, last := Collapsed(parts[..|parts| - 1]), parts[|parts| - 1];
      if last != ".." then init + [last] else if |init| > 0 then init[..|init| - 1] else []
  }

  lemma {:induction false} CollapsedIsSameIff(parts: seq<string>)
    ensures |Collapsed(parts)| <= |parts|
    ensures Collapsed(parts) == parts <==> ".." !in parts
    ensures ".." in parts ==> |Collapsed(parts)| < |parts|
  {
    if |parts| > 0 {
      var init, last := parts[..|parts| - 1], parts[|parts| - 1];
      CollapsedIsSameIff(init);
      assert parts == init + [last];
    }
  }

  /** Going down and up again is staying, wherever it happens. */
  lemma {:induction false} UpUndoesDown(before: seq<string>, name: string, after: seq<string>)
    requires name != ".."
    ensures Collapsed(before + [name, ".."] + after) == Collapsed(before + after)
  {
    var all := before + [name, ".."] + after;
    if |after| > 0 {
      UpUndoesDown(before, name, after[..|after| - 1]);
      assert all[..|all| - 1] == before + [name, ".."] + after[..|after| - 1];
      assert (before + after)[..|before + after| - 1] == before + after[..|after| - 1];
    } else {
      assert all[..|all| - 1] == before + [name] && (before + [name])[..|before|] == before;
      assert before + after == before;
    }
  }

  /** Above the root is the root. */
  lemma {:induction false} UpFromRootStays(after: seq<string>)
    ensures Collapsed([".."] + after) == Collapsed(after)
  {
    var all := [".."] + after;
    if |after| > 0 {
      UpFromRootStays(after[..|after| - 1]);
      assert all[..|all| - 1] == [".."] + after[..|after| - 1];
    } else {
      assert all[..|all| - 1] == [];
    }
  }

  /** A name joined onto a path has the path for its parent, the root is its own; `parents` goes up one at a time. */
  lemma ParentUndoesJoin(path: Path, name: string)
    ensures var child := path.Joined(Path(false, [name]));
      && child.Parent() == path && child != path && child.Ancestor(0) == Some(path)
      && forall n: nat :: child.Ancestor(n + 1) == path.Ancestor(n)
    ensures path.parts == [] ==> path.Parent() == path && path.Ancestor(0) == None
  {
    assert (path.parts + [name])[..|path.parts|] == path.parts;
    forall n: nat ensures path.Joined(Path(false, [name])).Ancestor(n + 1) == path.Ancestor(n) {
      if n < |path.parts| {
        assert (path.parts + [name])[..|path.parts| - 1 - n] == path.parts[..|path.parts| - 1 - n];
      }
    }
  }

  /** Joining is associative, an absolute path replaces what it is joined onto, and a path of no names changes nothing.
      */
  lemma JoiningAssociates(a: Path, b: Path, c: Path)
    ensures a.Joined(b).Joined(c) == a.Joined(b.Joined(c))
    ensures b.absolute ==> a.Joined(b) == b
    ensures a.Joined(Path(false, [])) == a && Path(false, []).Joined(b) == b
  {
  }

  lemma NamedCons(piece: string, rest: seq<string>)
    ensures Named([piece] + rest) == NameIn(piece) + Named(rest)
  {
    assert ([piece] + rest)[1..] == rest;
  }

  lemma {:induction false} NamedAppend(a: seq<string>, b: seq<string>)
    ensures Named(a + b) == Named(a) + Named(b)
  {
    if |a| == 0 {
      assert a + b == b;
    } else {
      hide Named, NameIn;
      Associates(NameIn(a[0]), Named(a[1..]), Named(b));
      NamedAppend(a[1..], b);
      NamedCons(a[0], a[1..] + b);
      NamedCons(a[0], a[1..]);
      assert a + b == [a[0]] + (a[1..] + b) && a == [a[0]] + a[1..];
    }
  }

  /** One more character in front of the pieces. */
  function Prepended(c: char, sep: char, pieces: seq<string>): seq<string>
    requires |pieces| > 0
  {
    if c == sep then [""] + pieces else [[c] + pieces[0]] + pieces[1..]
  }

  lemma SplitStep(c: char, rest: string, sep: char)
    ensures Split([c] + rest, sep) == Prepended(c, sep, Split(rest, sep))
  {
    assert ([c] + rest)[1..] == rest;
  }

  lemma {:induction false} SplitAppend(a: string, sep: char, b: string)
    ensures Split(a + [sep] + b, sep) == Split(a, sep) + Split(b, sep)
  {
    hide Split;
    if |a| == 0 {
      SplitStep(sep, b, sep);
      SplitPiece("", sep);
      assert a + [sep] + b == [sep] + b;
    } else {
      SplitAppend(a[1..], sep, b);
      SplitStep(a[0], a[1..] + [sep] + b, sep);
      SplitStep(a[0], a[1..], sep);
      assert a + [sep] + b == [a[0]] + (a[1..] + [sep] + b) && a == [a[0]] + a[1..];
    }
  }

  /** A path text is its pieces joined by slashes: a piece is a name, unless it is empty or a dot, which name nothing,
      and a leading slash makes the path absolute. */
  lemma ParseJoins(a: string, b: string)
    ensures '/' !in a ==> Parse(a) == Path(false, if a == "" || a == "." then [] else [a])
    ensures |a| > 0 ==> Parse(a + "/" + b) == Path(Parse(a).absolute, Parse(a).parts + Parse(b).parts)
    ensures Parse("/" + b) == Path(true, Parse(b).parts)
  {
    SplitAppend(a, '/', b);
    SplitAppend("", '/', b);
    assert "" + "/" + b == "/" + b;
    NamedAppend(Split(a, '/'), Split(b, '/'));
    NamedAppend([""], Split(b, '/'));
    if '/' !in a {
      SplitPiece(a, '/');
    }
  }
}
