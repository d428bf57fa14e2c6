/**
 Relative paths inside a directory tree. A path is the sequence of names
 from the tree's root down to an entry; the empty path is the root itself,
 which `os.path.relpath` spells ".". Joining a root with a relative path
 (`os.path.join`) is modelled by using the same relative path in the other
 tree, so no absolute paths appear in the model.
 */
module Paths {

  type Name = string

  type Path = seq<Name>

  /** The directory that holds `p`. */
  function Parent(p: Path): (q: Path)
    requires p != []
    ensures q < p && |q| + 1 == |p|
  {
    p[..|p| - 1]
  }

  lemma ParentOfChild(p: Path, n: Name)
    ensures Parent(p + [n]) == p
  {
  }

  lemma ChildOfParent(p: Path)
    requires p != []
    ensures Parent(p) + [p[|p| - 1]] == p
  {
  }

  /** Every prefix of `p`, the root and `p` itself included. */
  function Prefixes(p: Path): (s: set<Path>)
    ensures forall q :: q in s <==> q <= p
  {
    var s := set k | 0 <= k <= |p| :: p[..k];
    assert forall q :: q <= p ==> q == p[..|q|];
    s
  }

  /** A proper prefix of `p` is a prefix of `p`'s parent. */
  lemma {:induction false} ProperPrefixOfParent(q: Path, p: Path)
    requires q < p
    ensures q <= Parent(p)
  {
    assert Parent(p)[..|q|] == p[..|q|];
  }
}
