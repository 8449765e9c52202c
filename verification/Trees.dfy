/** What stands at which path: an index, a working tree or a commit's tree. Each is a map from
    path to content, so two of them are the same exactly when they hold the same content at the
    same paths. */
module Trees {
  import opened Wrappers

  type Path = string

  /** What stands at a path: a regular file and whether it may be executed, or a link. */
  datatype File = Regular(bytes: string, executable: bool) | Link(target: string)

  type Tree = map<Path, File>

  function At(t: Tree, p: Path): Option<File> {
    if p in t then Some(t[p]) else None
  }

  lemma SameTrees(a: Tree, b: Tree)
    requires forall p :: At(a, p) == At(b, p)
    ensures a == b
  {
    forall p
      ensures p in a <==> p in b
      ensures p in a && p in b ==> a[p] == b[p]
    {
      assert At(a, p) == At(b, p);
    }
  }
}
