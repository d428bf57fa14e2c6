/**
 A directory tree as a table from relative paths to entries, and the four
 file-system primitives the synchronizer mutates a tree with: `os.makedirs`,
 `shutil.copy2` (its destination side), `os.remove` and `shutil.rmtree`.
 */
module Trees {
  import opened Paths

  newtype byte = x: int | 0 <= x < 256

  type Content = seq<byte>

  /** What `calculate_checksum` returns (a hex digest); the hash itself is a parameter of the model. */
  type Digest = string

  /** An entry of a tree: a directory, or a file with its bytes and its modification time. */
  datatype Node = Dir | File(content: Content, mtime: int)

  type Entries = map<Path, Node>

  /**
   The shape every tree on disk has: the root, when it exists, is a
   directory, and every other entry sits in a directory. The empty table is a
   root that does not exist.
   */
  predicate WellFormed(m: Entries) {
    && ([] in m ==> m[[]].Dir?)
    && forall p {:trigger Parent(p)} :: p in m && p != [] ==> Parent(p) in m && m[Parent(p)].Dir?
  }

  /** Every proper prefix of an entry is a directory of the tree. */
  lemma {:induction false} AncestorIsDir(m: Entries, p: Path, q: Path)
    requires WellFormed(m) && p in m && q < p
    ensures q in m && m[q].Dir?
    decreases |p|
  {
    ProperPrefixOfParent(q, p);
    if q != Parent(p) {
      AncestorIsDir(m, Parent(p), q);
    }
  }

  /** Every directory above an entry of a well-formed tree is a directory of the tree. */
  lemma AncestorsAreDirs(m: Entries, p: Path)
    requires WellFormed(m)
    ensures p in m ==> forall q :: q < p ==> q in m && m[q].Dir?
  {
    if p in m {
      forall q | q < p
        ensures q in m && m[q].Dir?
      {
        AncestorIsDir(m, p, q);
      }
    }
  }

  /** A path of a well-formed tree whose prefix is not in the tree is not in the tree either. */
  lemma BelowMissingIsMissing(m: Entries, q: Path, p: Path)
    requires WellFormed(m) && q <= p && q !in m
    ensures p !in m
  {
    if p in m && q != p {
      AncestorIsDir(m, p, q);
    }
  }

  /** Below an existing directory, `os.makedirs` creates only the path it is given. */
  lemma MakeDirsBelowExisting(m: Entries, r: Path)
    requires WellFormed(m) && r !in m && (r != [] ==> Parent(r) in m)
    ensures m + (map q | q in Prefixes(r) && q !in m :: Dir) == m[r := Dir]
  {
    forall q | q in Prefixes(r) && q != r
      ensures q in m
    {
      ProperPrefixOfParent(q, r);
      if q != Parent(r) {
        AncestorIsDir(m, Parent(r), q);
      }
    }
  }

  /** The files directly inside directory `r` (the `files` list `os.walk` yields for `r`). */
  function FileChildren(m: Entries, r: Path): (s: set<Path>) {
    set p | p in m && p != [] && Parent(p) == r && m[p].File?
  }

  /** The directories directly inside directory `r` (the `dirs` list `os.walk` yields for `r`). */
  function DirChildren(m: Entries, r: Path): (s: set<Path>) {
    set p | p in m && p != [] && Parent(p) == r && m[p].Dir?
  }

  /** `os.walk` lists every entry directly inside `r` once: under `files` or under `dirs`, never both. */
  lemma ListedOnce(m: Entries, r: Path)
    ensures FileChildren(m, r) !! DirChildren(m, r)
    ensures FileChildren(m, r) + DirChildren(m, r) == set p | p in m && p != [] && Parent(p) == r
  {
  }

  /** The tree without the entry `d` and everything below it. */
  function WithoutSubtree(m: Entries, d: Path): (r: Entries) {
    map q | q in m && !(d <= q) :: m[q]
  }

  /** The tree without the entries `ds` and everything below them. */
  function WithoutSubtrees(m: Entries, ds: set<Path>): (r: Entries) {
    map q | q in m && forall d :: d in ds ==> !(d <= q) :: m[q]
  }

  lemma WithoutNoSubtrees(m: Entries)
    ensures WithoutSubtrees(m, {}) == m
  {
  }

  /** Taking away one more subtree, one at a time. */
  lemma WithoutOneMoreSubtree(m: Entries, ds: set<Path>, d: Path)
    ensures WithoutSubtrees(m, ds + {d}) == WithoutSubtree(WithoutSubtrees(m, ds), d)
  {
  }

  /** One tree on disk, whose entries the primitives change in place. */
  class Tree {
    var entries: Entries

    ghost predicate Valid()
      reads this
    {
      WellFormed(entries)
    }

    constructor (m: Entries)
      requires WellFormed(m)
      ensures Valid() && entries == m
    {
      entries := m;
    }

    /**
     `os.path.exists`: true when the path holds an entry of either kind, a
     file or a directory, and so only when every directory above it is one.
     */
    predicate Exists(p: Path): (b: bool)
      requires Valid()
      reads this
      ensures b <==> p in entries
      ensures b ==> forall q :: q < p ==> q in entries && entries[q].Dir?
    {
      AncestorsAreDirs(entries, p);
      p in entries
    }

    /**
     `os.makedirs(p)`, called on a path that does not exist: it creates `p`
     and every missing directory above it, and raises (changing nothing) when
     one of the directories above `p` is in fact a file.
     */
    method MakeDirs(p: Path) returns (ok: bool)
      requires Valid() && p !in entries
      modifies this
      ensures Valid()
      ensures ok <==> forall q :: q < p && q in old(entries) ==> old(entries)[q].Dir?
      ensures ok ==> entries == old(entries) + map q | q in Prefixes(p) && q !in old(entries) :: Dir
      ensures !ok ==> entries == old(entries)
    {
      ok := forall k :: 0 <= k < |p| && p[..k] in entries ==> entries[p[..k]].Dir?;
      assert ok <==> forall q :: q < p && q in entries ==> entries[q].Dir? by {
        assert forall q :: q < p ==> q == p[..|q|];
      }
      if ok {
        ghost var before := entries;
        entries := entries + map q | q in Prefixes(p) && q !in entries :: Dir;
        forall q | q in entries && q != []
          ensures Parent(q) in entries && entries[Parent(q)].Dir?
        {
          if q !in before {
            ProperPrefixOfParent(Parent(q), q);
          }
        }
      }
    }

    /**
     `shutil.copy2(source_file, p)` onto a path that is absent or a file:
     the destination takes the source's content and modification time. It
     raises, changing nothing, when the directory meant to hold `p` is not a
     directory.
     */
    method Copy(p: Path, file: Node) returns (ok: bool)
      requires Valid() && file.File? && p != []
      requires p in entries ==> entries[p].File?
      modifies this
      ensures Valid()
      ensures ok <==> Parent(p) in old(entries) && old(entries)[Parent(p)].Dir?
      ensures entries == if ok then old(entries)[p := file] else old(entries)
    {
      ok := Parent(p) in entries && entries[Parent(p)].Dir?;
      if ok {
        entries := entries[p := file];
      }
    }

    /** `os.remove(p)` on a file. */
    method Remove(p: Path)
      requires Valid() && p in entries && entries[p].File?
      modifies this
      ensures Valid()
      ensures entries == old(entries) - {p}
    {
      entries := entries - {p};
    }

    /** `shutil.rmtree(p)` on a directory other than the root: `p` goes, and everything below it. */
    method RmTree(p: Path)
      requires Valid() && p in entries && entries[p].Dir? && p != []
      modifies this
      ensures Valid()
      ensures entries == WithoutSubtree(old(entries), p)
    {
      entries := WithoutSubtree(entries, p);
      forall q | q in entries && q != []
        ensures Parent(q) in entries
      {
        assert !(p <= Parent(q)) by {
          assert Parent(q) <= q;
        }
      }
    }
  }
}
