/** The trees of a git history, path by path. */
module Trees {

  /** The contents of every file. */
  type Tree = map<string, string>

  /** The two trees agree about a path: neither has it, or both do and with the same contents. */
  predicate AgreeOn(a: Tree, b: Tree, p: string)
  {
    (p in a <==> p in b) && (p in a && p in b ==> a[p] == b[p])
  }

  /** The paths two trees disagree about. */
  function Diff(a: Tree, b: Tree): (paths: set<string>)
    ensures forall p :: p in paths <==> !AgreeOn(a, b, p)
  {
    set p | p in a.Keys + b.Keys && !(p in a && p in b && a[p] == b[p])
  }
}
