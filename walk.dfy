/**
 The state of a top-down tree walk as `os.walk` performs it: a set of
 directories still to visit and a set already visited. A directory is taken
 from the set, then its subdirectories join it, so every directory is visited
 after its parent. Which waiting directory comes next is left open, so what is
 proved about a walk holds for every order `os.walk` may produce.
 */
module Walk {
  import opened Paths
  import opened Trees

  /** The directories of a tree. */
  function DirsOf(m: Entries): (s: set<Path>) {
    set d | d in m && m[d].Dir?
  }

  /** Directory `d` waits in `todo`, or its parent has not been visited yet. */
  ghost predicate Waiting(todo: set<Path>, visited: set<Path>, d: Path) {
    d in todo || (d != [] && Parent(d) !in visited)
  }

  /** Every directory of `dirs` other than the root has its parent in `dirs`. */
  ghost predicate ParentClosed(dirs: set<Path>) {
    forall d {:trigger Parent(d)} :: d in dirs && d != [] ==> Parent(d) in dirs
  }

  lemma DirsParentClosed(m: Entries)
    requires WellFormed(m)
    ensures ParentClosed(DirsOf(m))
  {
  }

  /**
   A walk over directories drawn from `universe` that must reach every
   directory in `reach`: every waiting or visited directory's parent has been
   visited, and a directory of `reach` not visited yet is waiting or lies
   below a directory not visited yet.
   */
  ghost predicate WalkState(reach: set<Path>, universe: set<Path>, todo: set<Path>, visited: set<Path>) {
    && todo <= universe && visited <= universe
    && todo !! visited
    && (forall d {:trigger Parent(d)} :: d in todo && d != [] ==> Parent(d) in visited)
    && (forall d {:trigger Parent(d)} :: d in visited && d != [] ==> Parent(d) in visited)
    && (forall d {:trigger Waiting(todo, visited, d)} :: d in reach && d !in visited ==> Waiting(todo, visited, d))
  }

  /** The walk starts with the root waiting, or with nothing when there is nothing to reach. */
  lemma WalkStart(reach: set<Path>, universe: set<Path>, todo: set<Path>)
    requires todo <= universe && todo <= {[]}
    requires [] in reach ==> [] in todo
    ensures WalkState(reach, universe, todo, {})
  {
  }

  /**
   Visiting `r` and queuing `pushed` keeps the walk's state, when `pushed`
   holds directories directly below `r`, among them every one the walk must
   reach.
   */
  lemma {:induction false} WalkStep(reach: set<Path>, universe: set<Path>, todo: set<Path>, visited: set<Path>,
                                    r: Path, pushed: set<Path>)
    requires WalkState(reach, universe, todo, visited) && r in todo
    requires pushed <= universe
    requires forall c :: c in pushed ==> c != [] && Parent(c) == r
    requires forall d :: d in reach && d != [] && Parent(d) == r ==> d in pushed
    ensures WalkState(reach, universe, todo - {r} + pushed, visited + {r})
  {
    var todo', visited' := todo - {r} + pushed, visited + {r};
    forall c | c in pushed
      ensures c !in visited'
    {
      assert |c| == |r| + 1;
    }
    forall d | d in reach && d !in visited'
      ensures Waiting(todo', visited', d)
    {
      assert Waiting(todo, visited, d);
    }
  }

  /** When nothing waits, every directory the walk must reach has been visited. */
  lemma {:induction false} WalkEnd(reach: set<Path>, universe: set<Path>, visited: set<Path>)
    requires ParentClosed(reach) && WalkState(reach, universe, {}, visited)
    ensures reach <= visited
  {
    forall d | d in reach
      ensures d in visited
    {
      VisitedAtEnd(reach, universe, visited, d);
    }
  }

  lemma {:induction false} VisitedAtEnd(reach: set<Path>, universe: set<Path>, visited: set<Path>, d: Path)
    requires ParentClosed(reach) && WalkState(reach, universe, {}, visited) && d in reach
    ensures d in visited
    decreases |d|
  {
    if d !in visited {
      assert Waiting({}, visited, d);
      VisitedAtEnd(reach, universe, visited, Parent(d));
    }
  }

  /** Taking one more element `x` out of what is `left` of `all` adds it to what is done. */
  lemma TakeOne<T>(done0: set<T>, all: set<T>, left: set<T>, x: T)
    requires x in left && left <= all
    ensures done0 + (all - left) + {x} == done0 + (all - (left - {x}))
    ensures left - {x} <= all
  {
  }
}
