/**
 * Paths of names: `has(String...)`, `hasDefined(String...)` and
 * `get(String...)`. `Find` and `FindDefined` say which node a path reaches
 * without creating anything; `WalkPath` is the left fold of `get(name)` over
 * the path, writing every changed node back into the tree with `Graft`.
 */
module Paths {
  import opened Wrappers
  import opened Values
  import opened Children

  /** The node reached by following existing children named along `path`, if every one exists. */
  function Find(n: Node, path: seq<string>): Option<Node>
    decreases |path|
  {
    if |path| == 0 then Some(n)
    else match ChildNamed(n.value, path[0])
      case None => None
      case Some(c) => Find(c, path[1..])
  }

  /** Like `Find`, but every child passed on the way must also be defined. */
  function FindDefined(n: Node, path: seq<string>): Option<Node>
    decreases |path|
  {
    if |path| == 0 then Some(n)
    else match ChildNamed(n.value, path[0])
      case Some(c) => if c.value.IsDefined() then FindDefined(c, path[1..]) else None
      case None => None
  }

  /** `n` with the node at the existing `path` replaced by `sub`; `n` itself when the path does not exist. */
  function Graft(n: Node, path: seq<string>, sub: Node): Node
    decreases |path|
  {
    if |path| == 0 then sub
    else match n.value
      case ObjectValue(es) =>
        (match Lookup(es, path[0])
         case Some(c) => Node(n.prot, ObjectValue(Put(es, path[0], Graft(c, path[1..], sub))))
         case None => n)
      case PropertyValue(k, c) =>
        if k == path[0] then Node(n.prot, PropertyValue(k, Graft(c, path[1..], sub))) else n
      case _ => n
  }

  /** The tree after a path walk, the node the walk ended on, and whether any step created a node. */
  datatype Walk = Walk(root: Node, cursor: Node, created: bool)

  /** `get(String...)`: `get(name)` applied to each name in turn, starting from `n`. */
  function WalkPath(n: Node, names: seq<string>): Result<Walk>
    decreases |names|
  {
    if |names| == 0 then Ok(Walk(n, n, false))
    else
      var prefix := names[..|names| - 1];
      match WalkPath(n, prefix)
      case Err(e) => Err(e)
      case Ok(w) =>
        match Get(w.cursor, names[|names| - 1])
        case Err(e) => Err(e)
        case Ok(r) => Ok(Walk(Graft(w.root, prefix, r.node), r.child, w.created || r.created))
  }

  // ---------------------------------------------------------------------------
  // Find read from the front and from the back
  // ---------------------------------------------------------------------------

  /** Following `path + [k]` is following `path`, then the child `k`. */
  lemma {:induction false} FindSnoc(n: Node, path: seq<string>, k: string)
    ensures Find(n, path + [k]) == if Find(n, path).Some? then ChildNamed(Find(n, path).value.value, k) else None
    decreases |path|
  {
    if |path| == 0 {
      assert path + [k] == [k];
    } else {
      assert (path + [k])[1..] == path[1..] + [k];
      match ChildNamed(n.value, path[0])
      case None =>
      case Some(c) => FindSnoc(c, path[1..], k);
    }
  }

  /** The same for `FindDefined`: the last step must also land on a defined child. */
  lemma {:induction false} FindDefinedSnoc(n: Node, path: seq<string>, k: string)
    ensures FindDefined(n, path + [k]) ==
      if FindDefined(n, path).Some? && HasDefined(FindDefined(n, path).value.value, k)
      then ChildNamed(FindDefined(n, path).value.value, k) else None
    decreases |path|
  {
    if |path| == 0 {
      assert path + [k] == [k];
    } else {
      assert (path + [k])[1..] == path[1..] + [k];
      match ChildNamed(n.value, path[0])
      case None =>
      case Some(c) => if c.value.IsDefined() { FindDefinedSnoc(c, path[1..], k); }
    }
  }

  /** A path is missing exactly at its first missing segment: every shorter prefix was found. */
  lemma {:induction false} FindFirstMissing(n: Node, path: seq<string>)
    requires Find(n, path).None?
    ensures exists i :: 0 <= i < |path| && Find(n, path[..i]).Some? && !Has(Find(n, path[..i]).value.value, path[i])
    decreases |path|
  {
    var i := |path| - 1;
    assert path[..i] + [path[i]] == path;
    FindSnoc(n, path[..i], path[i]);
    if Find(n, path[..i]).None? {
      FindFirstMissing(n, path[..i]);
      var j :| 0 <= j < i && Find(n, path[..i][..j]).Some? && !Has(Find(n, path[..i][..j]).value.value, path[..i][j]);
      assert path[..i][..j] == path[..j];
    }
  }

  /** A defined path reaches a node that the plain path reaches too. */
  lemma {:induction false} FindDefinedFinds(n: Node, path: seq<string>)
    requires FindDefined(n, path).Some?
    ensures Find(n, path) == FindDefined(n, path)
    decreases |path|
  {
    if |path| > 0 {
      FindDefinedFinds(ChildNamed(n.value, path[0]).value, path[1..]);
    }
  }

  // ---------------------------------------------------------------------------
  // Graft
  // ---------------------------------------------------------------------------

  /** After grafting at an existing path, the path leads to the grafted node. */
  lemma {:induction false} FindGraft(n: Node, path: seq<string>, sub: Node)
    requires Find(n, path).Some?
    ensures Find(Graft(n, path, sub), path) == Some(sub)
    ensures |path| > 0 ==> Graft(n, path, sub).prot == n.prot
    decreases |path|
  {
    if |path| > 0 {
      var c := ChildNamed(n.value, path[0]).value;
      FindGraft(c, path[1..], sub);
    }
  }

  /** Grafting back the node that is already there changes nothing. */
  lemma {:induction false} GraftSame(n: Node, path: seq<string>)
    requires Find(n, path).Some?
    ensures Graft(n, path, Find(n, path).value) == n
    decreases |path|
  {
    if |path| > 0 {
      var c := ChildNamed(n.value, path[0]).value;
      GraftSame(c, path[1..]);
      if n.value.ObjectValue? {
        PutSame(n.value.entries, path[0]);
      }
    }
  }

  /** The child under a name inherits the invariants of its parent. */
  lemma ChildValid(v: Value, p: bool, k: string)
    requires WellFormed(v) && Sealed(v, p) && Has(v, k)
    ensures WellFormed(ChildNamed(v, k).value.value)
    ensures Sealed(ChildNamed(v, k).value.value, ChildNamed(v, k).value.prot)
    ensures p ==> ChildNamed(v, k).value.prot
  {
    if v.ObjectValue? {
      var i :| 0 <= i < |v.entries| && v.entries[i] == Entry(k, ChildNamed(v, k).value);
    }
  }

  /** Every node on a path inherits the invariants of the root; below a protected root it is protected. */
  lemma {:induction false} FindValid(n: Node, path: seq<string>)
    requires WellFormed(n.value) && Sealed(n.value, n.prot) && Find(n, path).Some?
    ensures WellFormed(Find(n, path).value.value) && Sealed(Find(n, path).value.value, Find(n, path).value.prot)
    ensures n.prot ==> Find(n, path).value.prot
    decreases |path|
  {
    if |path| > 0 {
      ChildValid(n.value, n.prot, path[0]);
      FindValid(ChildNamed(n.value, path[0]).value, path[1..]);
    }
  }

  /** Grafting a node that keeps the invariants and the protection of the one it replaces keeps them for the tree. */
  lemma {:induction false} GraftValid(n: Node, path: seq<string>, sub: Node)
    requires WellFormed(n.value) && Sealed(n.value, n.prot) && Find(n, path).Some?
    requires WellFormed(sub.value) && Sealed(sub.value, sub.prot) && sub.prot == Find(n, path).value.prot
    ensures WellFormed(Graft(n, path, sub).value) && Sealed(Graft(n, path, sub).value, Graft(n, path, sub).prot)
    decreases |path|
  {
    if |path| > 0 {
      var c := ChildNamed(n.value, path[0]).value;
      ChildValid(n.value, n.prot, path[0]);
      GraftValid(c, path[1..], sub);
      FindGraft(c, path[1..], sub);
      var g := Graft(c, path[1..], sub);
      if |path| == 1 {
        assert g == sub;
      }
      assert g.prot == c.prot;
      if n.value.ObjectValue? {
        PutPreserves(n.value.entries, path[0], g, n.prot);
      }
    }
  }

  // ---------------------------------------------------------------------------
  // get(String...)
  // ---------------------------------------------------------------------------

  /** A walk ends on the node its path now leads to, and keeps the root's protection. */
  lemma {:induction false} WalkReaches(n: Node, names: seq<string>)
    requires WalkPath(n, names).Ok?
    ensures Find(WalkPath(n, names).value.root, names) == Some(WalkPath(n, names).value.cursor)
    ensures WalkPath(n, names).value.root.prot == n.prot
    decreases |names|
  {
    if |names| > 0 {
      var prefix := names[..|names| - 1];
      var k := names[|names| - 1];
      assert prefix + [k] == names;
      WalkReaches(n, prefix);
      var w := WalkPath(n, prefix).value;
      var r := Get(w.cursor, k).value;
      FindGraft(w.root, prefix, r.node);
      FindSnoc(Graft(w.root, prefix, r.node), prefix, k);
    }
  }

  /** A walk that creates nothing leaves the tree exactly as it was. */
  lemma {:induction false} WalkWithoutCreating(n: Node, names: seq<string>)
    requires WalkPath(n, names).Ok? && !WalkPath(n, names).value.created
    ensures WalkPath(n, names).value.root == n
    decreases |names|
  {
    if |names| > 0 {
      var prefix := names[..|names| - 1];
      WalkWithoutCreating(n, prefix);
      WalkReaches(n, prefix);
      GraftSame(n, prefix);
    }
  }

  /** Once a walk has created a node it only meets new undefined nodes: it ends on one. */
  lemma {:induction false} WalkCreatedEndsFresh(n: Node, names: seq<string>)
    requires WalkPath(n, names).Ok? && WalkPath(n, names).value.created
    ensures WalkPath(n, names).value.cursor == Fresh
    decreases |names|
  {
    if |names| > 0 {
      var prefix := names[..|names| - 1];
      if WalkPath(n, prefix).value.created {
        WalkCreatedEndsFresh(n, prefix);
      }
    }
  }

  /** `has(String...)` holds exactly when `get(String...)` succeeds without creating nodes, reaching the same node. */
  lemma {:induction false} HasIffWalkWithoutCreating(n: Node, names: seq<string>)
    ensures Find(n, names).Some? <==> WalkPath(n, names).Ok? && !WalkPath(n, names).value.created
    ensures Find(n, names).Some? ==> WalkPath(n, names).value == Walk(n, Find(n, names).value, false)
    decreases |names|
  {
    if WalkPath(n, names).Ok? && !WalkPath(n, names).value.created {
      WalkWithoutCreating(n, names);
      WalkReaches(n, names);
    }
    if |names| > 0 && Find(n, names).Some? {
      var prefix := names[..|names| - 1];
      var k := names[|names| - 1];
      assert prefix + [k] == names;
      FindSnoc(n, prefix, k);
      HasIffWalkWithoutCreating(n, prefix);
    }
  }

  /** A protected, sealed tree is never changed by a path walk: it fails instead of creating. */
  lemma {:induction false} ProtectedWalkCreatesNothing(n: Node, names: seq<string>)
    requires n.prot && Sealed(n.value, n.prot) && WellFormed(n.value)
    ensures WalkPath(n, names).Ok? ==> Find(n, names).Some? && WalkPath(n, names).value == Walk(n, Find(n, names).value, false)
    decreases |names|
  {
    if |names| > 0 {
      var prefix := names[..|names| - 1];
      ProtectedWalkCreatesNothing(n, prefix);
      if WalkPath(n, names).Ok? {
        HasIffWalkWithoutCreating(n, prefix);
        FindValid(n, prefix);
        HasIffWalkWithoutCreating(n, names);
      }
    }
  }

  /** `get(String...)` keeps the tree well-formed and sealed. */
  lemma {:induction false} WalkPreserves(n: Node, names: seq<string>)
    requires WellFormed(n.value) && Sealed(n.value, n.prot) && WalkPath(n, names).Ok?
    ensures WellFormed(WalkPath(n, names).value.root.value)
    ensures Sealed(WalkPath(n, names).value.root.value, n.prot)
    decreases |names|
  {
    if |names| > 0 {
      var prefix := names[..|names| - 1];
      WalkPreserves(n, prefix);
      WalkReaches(n, prefix);
      var w := WalkPath(n, prefix).value;
      FindValid(w.root, prefix);
      GetPreserves(w.cursor, names[|names| - 1]);
      GraftValid(w.root, prefix, Get(w.cursor, names[|names| - 1]).value.node);
      WalkReaches(n, names);
    }
  }

  /**
   * One more successful step of a walk: the tree grafts the step's new child
   * node back in at the prefix, keeps its keys unique and its protection,
   * and the cursor moves to the child.
   */
  lemma {:induction false} WalkStep(n: Node, names: seq<string>, i: nat)
    requires WellFormed(n.value) && Sealed(n.value, n.prot)
    requires i < |names| && WalkPath(n, names[..i]).Ok?
    requires Get(WalkPath(n, names[..i]).value.cursor, names[i]).Ok?
    ensures WalkPath(n, names[..i + 1]).Ok?
    ensures WalkPath(n, names[..i + 1]).value.cursor == Get(WalkPath(n, names[..i]).value.cursor, names[i]).value.child
    ensures WalkPath(n, names[..i + 1]).value.root.value ==
      Graft(WalkPath(n, names[..i]).value.root, names[..i], Get(WalkPath(n, names[..i]).value.cursor, names[i]).value.node).value
    ensures WalkPath(n, names[..i + 1]).value.root.prot == n.prot
    ensures WellFormed(WalkPath(n, names[..i + 1]).value.root.value)
    ensures Sealed(WalkPath(n, names[..i + 1]).value.root.value, n.prot)
  {
    assert names[..i + 1][..i] == names[..i];
    WalkReaches(n, names[..i + 1]);
    WalkPreserves(n, names[..i + 1]);
  }

  /**
   * The tree after `get(String...)`, whether or not it succeeded: a step that
   * fails leaves in place every node the earlier steps created.
   */
  function PathTree(n: Node, names: seq<string>): Node
    decreases |names|
  {
    if |names| == 0 then n
    else match WalkPath(n, names)
      case Ok(w) => w.root
      case Err(_) => PathTree(n, names[..|names| - 1])
  }

  /**
   * When the walk over `names[..i]` succeeds and its next step fails, the
   * whole walk fails with that step's error and leaves the tree that the
   * walk over `names[..i]` had built.
   */
  lemma {:induction false} PathTreeAt(n: Node, names: seq<string>, i: nat)
    requires i < |names| && WalkPath(n, names[..i]).Ok?
    requires Get(WalkPath(n, names[..i]).value.cursor, names[i]).Err?
    ensures WalkPath(n, names) == Err(Get(WalkPath(n, names[..i]).value.cursor, names[i]).error)
    ensures PathTree(n, names) == WalkPath(n, names[..i]).value.root
    decreases |names|
  {
    var prefix := names[..|names| - 1];
    if i < |names| - 1 {
      assert prefix[..i] == names[..i] && prefix[i] == names[i];
      PathTreeAt(n, prefix, i);
    } else if i == 0 {
      assert names[..i] == [];
    }
  }

  /** A protected, sealed tree is left exactly as it was by `get(String...)`, whether or not it fails. */
  lemma {:induction false} ProtectedPathTree(n: Node, names: seq<string>)
    requires n.prot && Sealed(n.value, n.prot) && WellFormed(n.value)
    ensures PathTree(n, names) == n
    decreases |names|
  {
    if |names| > 0 {
      ProtectedWalkCreatesNothing(n, names);
      ProtectedPathTree(n, names[..|names| - 1]);
    }
  }

  /** `get(String...)` keeps the tree well-formed and sealed, whether or not it fails. */
  lemma {:induction false} PathTreePreserves(n: Node, names: seq<string>)
    requires WellFormed(n.value) && Sealed(n.value, n.prot)
    ensures WellFormed(PathTree(n, names).value) && Sealed(PathTree(n, names).value, n.prot)
    ensures PathTree(n, names).prot == n.prot
    decreases |names|
  {
    if |names| > 0 {
      if WalkPath(n, names).Ok? {
        WalkPreserves(n, names);
        WalkReaches(n, names);
      } else {
        PathTreePreserves(n, names[..|names| - 1]);
      }
    }
  }
}
