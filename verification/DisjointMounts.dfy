/**
 Trees in which no host directory is mounted at two places, nor inside another one that is mounted. There
 host paths run in step with guest paths, every change keeps that, and no two nodes share anything.
 */
module DisjointMounts {
  import opened Common
  import opened FileTree
  import opened NodeLookup
  import opened HostMirror
  import opened Vfs
  import opened NoLeftovers

  /** The parent of the node at `r` has the host directory that holds `b`. */
  predicate Linked(root: Node, r: Path, b: Path) {
    && r != [] && b != [] && View(root, Parent(r)).Some?
    && HostOf(View(root, Parent(r)).value) == Some(Parent(b))
  }

  /**
   Where one backed node's host path lies under another's, their guest paths lie so too, in the same way,
   and so do those of all nodes in between.
   */
  ghost predicate Aligned(root: Node, q: Path, r: Path) {
    match (View(root, q), View(root, r))
    case (Some(i), Some(j)) =>
      HostOf(i).Some? && HostOf(j).Some? && HostOf(i).value <= HostOf(j).value ==>
        InStep(root, q, HostOf(i).value, r, HostOf(j).value)
    case _ => true
  }

  predicate InStep(root: Node, q: Path, a: Path, r: Path, b: Path)
    requires a <= b
  {
    q <= r && r[|q|..] == b[|a|..] && (q != r ==> Linked(root, r, b))
  }

  /** No two directories that are mounted lie on the host one at or under the other. */
  ghost predicate AllAligned(root: Node) {
    forall q, r {:trigger Aligned(root, q, r)} :: Aligned(root, q, r)
  }

  lemma {:induction false} AlignedAt(root: Node, q: Path, r: Path)
    requires AllAligned(root)
    ensures Aligned(root, q, r)
  {
  }

  /** A host directory is the writeable directory of one node only. */
  lemma {:induction false} OneDirectory(root: Node, a: Path, b: Path, h: Path)
    requires AllAligned(root) && View(root, a) == View(root, b) == Some(DirInfo(Some(h)))
    ensures a == b
  {
    hide AllAligned, View;
    AlignedAt(root, a, b);
    AlignedAt(root, b, a);
  }

  lemma {:induction false} SameStep(a: Path, b: Path, x: Path, y: Path)
    requires a + x <= a + y
    ensures x <= y && b + x <= b + y && (b + y)[|b + x|..] == y[|x|..] && (a + y)[|a + x|..] == y[|x|..]
  {
    assert (a + y)[|a|..] == y && (a + x)[|a|..] == x;
    assert forall i :: 0 <= i < |x| ==> x[i] == (a + x)[|a| + i] == (a + y)[|a| + i] == y[i];
  }

  lemma {:induction false} StepsDown(p: Path, name: string, s: Path, h: Path, g: Path)
    requires p <= s && h <= g && s[|p|..] == g[|h|..] && h + [name] <= g
    ensures p + [name] <= s && s[|p| + 1..] == g[|h| + 1..]
  {
    assert s == p + s[|p|..];
    assert g[|h|] == (h + [name])[|h|] == name;
    assert s[|p|] == s[|p|..][0] == g[|h|..][0];
    assert s[|p| + 1..] == s[|p|..][1..] && g[|h| + 1..] == g[|h|..][1..];
  }

  /**
   Whatever has a host path at or under that of a child's place in a writeable directory is at or under that
   place.
   */
  lemma {:induction false} UnderPlace(root: Node, q: Path, h: Path, s: Path)
    requires AllAligned(root) && q != [] && View(root, Parent(q)) == Some(DirInfo(Some(h)))
    requires View(root, s).Some? && HostOf(View(root, s).value).Some?
      && h + [Name(q)] <= HostOf(View(root, s).value).value
    ensures q <= s && s[|q|..] == HostOf(View(root, s).value).value[|h| + 1..]
  {
    hide AllAligned, View;
    var g := HostOf(View(root, s).value).value;
    assert h <= g;
    AlignedAt(root, Parent(q), s);
    StepsDown(Parent(q), Name(q), s, h, g);
    ParentName(q);
  }

  /** No other node has a host path at or under the new one. */
  lemma {:induction false} NobodyUnderLeaf(root: Node, q: Path, h: Path, s: Path)
    requires AllAligned(root) && q != [] && View(root, q).None? && View(root, Parent(q)) == Some(DirInfo(Some(h)))
    requires View(root, s).Some? && HostOf(View(root, s).value).Some?
    ensures !(h + [Name(q)] <= HostOf(View(root, s).value).value)
  {
    hide AllAligned, View;
    if h + [Name(q)] <= HostOf(View(root, s).value).value {
      UnderPlace(root, q, h, s);
      ViewPrefixOf(root, q, s);
    }
  }

  /** The new leaf is in step with the nodes above it. */
  lemma {:induction false} LeafInStep(root: Node, root2: Node, q: Path, h: Path, r: Path)
    requires AllAligned(root) && q != [] && View(root, Parent(q)) == Some(DirInfo(Some(h)))
    requires View(root2, Parent(q)) == View(root, Parent(q)) && View(root, r).Some? && HostOf(View(root, r).value).Some?
    requires HostOf(View(root, r).value).value <= h + [Name(q)] && HostOf(View(root, r).value).value != h + [Name(q)]
    ensures InStep(root2, r, HostOf(View(root, r).value).value, q, h + [Name(q)])
  {
    hide AllAligned, View;
    ProperPrefix(HostOf(View(root, r).value).value, h, Name(q));
    AlignedAt(root, r, Parent(q));
    ParentName(q);
    ParentOf(h, Name(q));
    assert q[|r|..] == Parent(q)[|r|..] + [Name(q)];
  }

  lemma {:induction false} GrownAligned(root: Node, root2: Node, q: Path, i: Info, r: Path, s: Path)
    requires AllAligned(root) && Vacant(root, q) && Grown(root, root2, q, i) && HostOf(i) == Some(Place(root, q))
    ensures Aligned(root2, r, s)
  {
    hide AllAligned, View;
    var h := View(root, Parent(q)).value.writeable.value;
    if s != q && View(root, s).Some? && HostOf(View(root, s).value).Some? {
      if r != q {
        AlignedAt(root, r, s);
      } else {
        NobodyUnderLeaf(root, q, h, s);
      }
    } else if s == q && r != q && View(root, r).Some? && HostOf(View(root, r).value).Some? {
      NobodyUnderLeaf(root, q, h, r);
      if HostOf(View(root, r).value).value <= Place(root, q) {
        LeafInStep(root, root2, q, h, r);
      }
    }
  }

  lemma {:induction false} GrowingKeepsAligned(root: Node, root2: Node, q: Path, i: Info)
    requires AllAligned(root) && Vacant(root, q) && Grown(root, root2, q, i) && HostOf(i) == Some(Place(root, q))
    ensures AllAligned(root2)
  {
    forall r, s
      ensures Aligned(root2, r, s)
    {
      GrownAligned(root, root2, q, i, r, s);
    }
  }

  lemma {:induction false} RemovingKeepsAligned(root: Node, root2: Node, q: Path)
    requires AllAligned(root)
    requires forall s {:trigger View(root2, s)} :: View(root2, s) == if q <= s then None else View(root, s)
    ensures AllAligned(root2)
  {
    forall r, s
      ensures Aligned(root2, r, s)
    {
      RemovedAligned(root, root2, q, r, s);
    }
  }

  lemma {:induction false} RemovedAligned(root: Node, root2: Node, q: Path, r: Path, s: Path)
    requires AllAligned(root)
    requires forall s {:trigger View(root2, s)} :: View(root2, s) == if q <= s then None else View(root, s)
    ensures Aligned(root2, r, s)
  {
    hide AllAligned, View;
    AlignedAt(root, r, s);
    if s != [] {
      PrefixOfParent(q, s);
    }
  }

  // ----- moving

  /** Between two nodes whose host paths lie one under the other, all nodes have the host paths in between. */
  lemma {:induction false} BackedChain(root: Node, s: Path, t: Path, u: Path)
    requires AllAligned(root) && View(root, s).Some? && View(root, t).Some? && s <= u <= t
    requires HostOf(View(root, s).value).Some? && HostOf(View(root, t).value).Some?
    requires HostOf(View(root, s).value).value <= HostOf(View(root, t).value).value
    ensures View(root, u).Some? && HostOf(View(root, u).value) == Some(HostOf(View(root, s).value).value + u[|s|..])
    decreases |t| - |u|
  {
    hide AllAligned, View;
    var a, b := HostOf(View(root, s).value).value, HostOf(View(root, t).value).value;
    if u == t {
      AlignedAt(root, s, t);
      assert b == a + b[|a|..];
    } else {
      var v := t[..|u| + 1];
      assert Parent(v) == u && v <= t;
      BackedChain(root, s, t, v);
      AlignedAt(root, s, v);
      assert v[|s|..] == u[|s|..] + [Name(v)];
      assert a + v[|s|..] == a + u[|s|..] + [Name(v)];
      ParentOf(a + u[|s|..], Name(v));
      assert s != v;
    }
  }

  /** A backed node elsewhere is not on the way of the move: its host path is neither under `from` nor under `to`. */
  lemma {:induction false} BystanderHost(m: Move, s: Path)
    requires Movable(m) && AllAligned(m.root) && View(m.root, s).Some? && HostOf(View(m.root, s).value).Some?
      && !(m.q <= s) && !(m.r <= s)
    ensures var g := HostOf(View(m.root, s).value).value; g in m.host && !(m.from <= g) && !(m.to <= g)
  {
    hide Mirror, AllAligned, View;
    MirrorAt(m.root, m.host, s);
    AlignedAt(m.root, m.q, s);
    if m.to <= HostOf(View(m.root, s).value).value {
      UnderPlace(m.root, m.r, m.dir, s);
    }
  }

  /** A node that is carried along without being reached keeps a host path that the move does not concern. */
  lemma {:induction false} UnreachedHost(m: Move, x: Path)
    requires Movable(m) && AllAligned(m.root) && View(m.root, m.q + x).Some?
      && HostOf(View(m.root, m.q + x).value).Some?
    requires !Reached(MovedNode(m), x)
    ensures var g := HostOf(View(m.root, m.q + x).value).value; g in m.host && !(m.from <= g) && !(m.to <= g)
  {
    var g := HostOf(View(m.root, m.q + x).value).value;
    MirrorAt(m.root, m.host, m.q + x);
    if m.from <= g {
      ChainIsReached(m, x, x);
    } else if m.to <= g {
      OnlyTargetUnder(m, m.q + x);
      PrefixOfSum(m.q, x, m.r);
    }
  }

  /** If the host has something at the target, at most the node there has it. */
  lemma {:induction false} OnlyTargetUnder(m: Move, s: Path)
    requires Movable(m) && AllAligned(m.root) && m.from != m.to && View(m.root, s).Some?
      && HostOf(View(m.root, s).value).Some?
    requires m.to <= HostOf(View(m.root, s).value).value
    ensures s == m.r && HostOf(View(m.root, s).value).value == m.to
  {
    hide Mirror, AllAligned, View;
    var g := HostOf(View(m.root, s).value).value;
    MirrorAt(m.root, m.host, s);
    MirrorAt(m.root, m.host, Parent(m.r));
    NothingUnder(m.host, m.to, g);
    UnderPlace(m.root, m.r, m.dir, s);
  }

  /** Where host paths run in step with guest paths, `update_host_paths_recursively` gets along. */
  lemma {:induction false} ChainIsReached(m: Move, x: Path, y: Path)
    requires Movable(m) && AllAligned(m.root) && View(m.root, m.q + x).Some?
      && HostOf(View(m.root, m.q + x).value).Some? && y <= x
    requires m.from <= HostOf(View(m.root, m.q + x).value).value
    ensures Reached(MovedNode(m), y) && View(MovedNode(m), y).Some?
    decreases |y|
  {
    hide Mirror, AllAligned, View, Reached;
    ViewBelow(m, y);
    ViewPrefixOf(m.root, m.q + y, m.q + x);
    if y == [] {
      ReachedRoot(MovedNode(m));
    } else {
      ChainIsReached(m, x, Parent(y));
      ViewBelow(m, Parent(y));
      assert m.q + Parent(y) == Parent(m.q + y);
      ParentIsDir(m.root, m.q + y);
      BackedChain(m.root, m.q, m.q + x, m.q + Parent(y));
      ReachedStep(MovedNode(m), y);
    }
  }

  /** The backed nodes at `s` and `t`, the host path of the one under that of the other. */
  ghost predicate Nested(root: Node, s: Path, t: Path) {
    && View(root, s).Some? && View(root, t).Some?
    && HostOf(View(root, s).value).Some? && HostOf(View(root, t).value).Some?
    && HostOf(View(root, s).value).value <= HostOf(View(root, t).value).value
  }

  lemma {:induction false} MovedAligned(m: Move, root2: Node, s: Path, t: Path)
    requires Movable(m) && AllAligned(m.root) && Rerooted(m, root2)
    ensures Aligned(root2, s, t)
  {
    hide Mirror, AllAligned, View, HostAfter, Reached;
    if Nested(root2, s, t) {
      if m.r <= s {
        AlignedFromInside(m, root2, s, t);
      } else if m.r <= t {
        AlignedIntoInside(m, root2, s, t);
      } else {
        AlignedAt(m.root, s, t);
        if t != [] {
          PrefixOfParent(m.r, t);
          PrefixOfParent(m.q, t);
        }
      }
    }
  }

  /** A moved node below the target has its parent there too. */
  lemma {:induction false} LinkedBelow(m: Move, root2: Node, y: Path)
    requires Movable(m) && AllAligned(m.root) && Rerooted(m, root2) && y != [] && View(root2, m.r + y).Some?
    requires HostOf(View(root2, m.r + y).value).Some?
    requires !Reached(MovedNode(m), y) && View(m.root, m.q + y).Some? && HostOf(View(m.root, m.q + y).value).Some? ==>
      Linked(m.root, m.q + y, HostOf(View(m.root, m.q + y).value).value)
    ensures Linked(root2, m.r + y, HostOf(View(root2, m.r + y).value).value)
  {
    hide Mirror, AllAligned, View, Reached;
    var n := MovedNode(m);
    assert (m.r + y)[|m.r|..] == y && Parent(m.r + y) == m.r + Parent(y) && Parent(m.q + y) == m.q + Parent(y);
    assert (m.r + Parent(y))[|m.r|..] == Parent(y);
    ViewBelow(m, y);
    ViewBelow(m, Parent(y));
    ReachedStep(n, y);
    if Reached(n, y) {
      assert Parent(m.to + y) == m.to + Parent(y);
    }
  }

  lemma {:induction false} AlignedFromInside(m: Move, root2: Node, s: Path, t: Path)
    requires Movable(m) && AllAligned(m.root) && Rerooted(m, root2) && m.r <= s && Nested(root2, s, t)
    ensures InStep(root2, s, HostOf(View(root2, s).value).value, t, HostOf(View(root2, t).value).value)
  {
    hide Mirror, AllAligned, View, HostAfter, Reached;
    var n := MovedNode(m);
    var a, b := HostOf(View(root2, s).value).value, HostOf(View(root2, t).value).value;
    var x := s[|m.r|..];
    ViewBelow(m, x);
    assert s == m.r + x;
    if m.r <= t {
      var y := t[|m.r|..];
      ViewBelow(m, y);
      assert t == m.r + y;
      if Reached(n, x) && Reached(n, y) {
        SameStep(m.to, m.r, x, y);
        if x != y {
          LinkedBelow(m, root2, y);
        }
      } else if Reached(n, x) {
        PrefixTransitive(m.to, a, b);
        UnreachedHost(m, y);
      } else if Reached(n, y) {
        UnreachedHost(m, x);
        UnderTarget(m, a, y);
        SourceNotAbove(m, x);
        AlignedAt(m.root, m.q + x, Parent(m.r));
      } else {
        AlignedAt(m.root, m.q + x, m.q + y);
        SameStep(m.q, m.r, x, y);
        assert t[|s|..] == y[|x|..] && (m.q + y)[|m.q + x|..] == y[|x|..];
        if x != y {
          LinkedBelow(m, root2, y);
        }
      }
    } else {
      PrefixOfSum(m.q, x, t);
      if Reached(n, x) {
        PrefixTransitive(m.to, a, b);
        BystanderHost(m, t);
      } else {
        AlignedAt(m.root, m.q + x, t);
      }
    }
  }

  lemma {:induction false} UnderTarget(m: Move, a: Path, y: Path)
    requires Movable(m) && AllAligned(m.root) && a <= m.to + y && !(m.to <= a)
    ensures a <= m.dir && (m.to + y)[|a|..] == m.dir[|a|..] + [Name(m.r)] + y
  {
    hide Mirror, AllAligned, View;
    PrefixesCompare(a, m.to, m.to + y);
    assert a == m.dir[..|a|];
  }

  lemma {:induction false} AlignedIntoInside(m: Move, root2: Node, s: Path, t: Path)
    requires Movable(m) && AllAligned(m.root) && Rerooted(m, root2) && !(m.r <= s) && m.r <= t && Nested(root2, s, t)
    ensures InStep(root2, s, HostOf(View(root2, s).value).value, t, HostOf(View(root2, t).value).value)
  {
    hide Mirror, AllAligned, View, HostAfter, Reached;
    var n := MovedNode(m);
    var a := HostOf(View(root2, s).value).value;
    var y := t[|m.r|..];
    BystanderHost(m, s);
    ViewBelow(m, y);
    assert t == m.r + y;
    if Reached(n, y) {
      UnderTarget(m, a, y);
      AlignedAt(m.root, s, Parent(m.r));
      ParentName(m.r);
      assert t[|s|..] == Parent(m.r)[|s|..] + [Name(m.r)] + y;
      LinkedInside(m, root2, y);
    } else {
      UnreachedHost(m, y);
      AlignedAt(m.root, s, m.q + y);
      ChainThroughSource(m, s, y);
    }
  }

  /** A reached node has its parent, which for the moved node is the directory of the target. */
  lemma {:induction false} LinkedInside(m: Move, root2: Node, y: Path)
    requires Movable(m) && AllAligned(m.root) && Rerooted(m, root2) && View(root2, m.r + y).Some?
      && Reached(MovedNode(m), y)
    requires HostOf(View(root2, m.r + y).value).Some?
    ensures Linked(root2, m.r + y, HostOf(View(root2, m.r + y).value).value)
  {
    hide Mirror, AllAligned, View, Reached;
    if y == [] {
      assert m.r + y == m.r && m.r[|m.r|..] == [] && m.to + y == m.to;
      ParentOf(m.dir, Name(m.r));
      SourceNotAbove(m, []);
      assert m.q + [] == m.q;
    } else {
      LinkedBelow(m, root2, y);
    }
  }

  /** A backed node above the source cannot be in step with one that the move does not reach. */
  lemma {:induction false} ChainThroughSource(m: Move, s: Path, y: Path)
    requires Movable(m) && AllAligned(m.root) && View(m.root, s).Some? && View(m.root, m.q + y).Some? && !(m.q <= s)
      && s <= m.q + y
    requires HostOf(View(m.root, s).value).Some? && HostOf(View(m.root, m.q + y).value).Some?
    requires HostOf(View(m.root, s).value).value <= HostOf(View(m.root, m.q + y).value).value
    ensures m.from <= HostOf(View(m.root, m.q + y).value).value
  {
    hide Mirror, AllAligned, View;
    PrefixesCompare(s, m.q, m.q + y);
    PrefixesCompare(m.q, s, m.q + y);
    BackedChain(m.root, s, m.q + y, m.q);
    AlignedAt(m.root, s, m.q + y);
    RelativePrefix(HostOf(View(m.root, s).value).value, HostOf(View(m.root, m.q + y).value).value, s, m.q + y, m.q);
  }

  lemma {:induction false} RelativePrefix(a: Path, b: Path, s: Path, t: Path, u: Path)
    requires a <= b && s <= u <= t && t[|s|..] == b[|a|..]
    ensures a + u[|s|..] <= b
  {
    assert b == a + b[|a|..];
    assert u[|s|..] <= t[|s|..];
    assert a + u[|s|..] <= a + b[|a|..];
  }

  /** Nothing shares a host path that a move takes away. */
  lemma {:induction false} NobodyIsLeft(m: Move)
    requires Movable(m) && AllAligned(m.root)
    ensures NobodyLeft(m)
  {
    assert View(m.root, m.q).Some?;
    hide Mirror, AllAligned, View, Reached, Movable;
    forall s
      ensures !LeftBehind(m, s)
    {
      NotLeftBehind(m, s);
    }
  }

  lemma {:induction false} NotLeftBehind(m: Move, s: Path)
    requires Movable(m) && AllAligned(m.root)
    ensures !LeftBehind(m, s)
  {
    hide Mirror, AllAligned, View, Reached;
    if LeftBehind(m, s) {
      AlignedAt(m.root, m.q, s);
      var x := s[|m.q|..];
      assert m.q + x == s;
      ChainIsReached(m, x, x);
    }
  }

  /** What is overwritten in a directory that remains is the target itself. */
  lemma {:induction false} NotOrphaned(m: Move, s: Path)
    requires Movable(m) && AllAligned(m.root)
    ensures !Orphaned(m, s)
  {
    hide Mirror, AllAligned, View;
    if Orphaned(m, s) {
      var g := HostOf(View(m.root, s).value).value;
      var d :| Remains(m, d) && HasHost(View(m.root, d), Parent(g));
      AlignedAt(m.root, d, s);
      assert g[|Parent(g)|..] == [Name(g)];
      assert s == d + [Name(g)] by { assert s == d + s[|d|..]; }
      PrefixOfChild(m.r, d, Name(g));
      ParentOf(d, Name(g));
      MirrorAt(m.root, m.host, s);
      ParentName(g);
    }
  }

  lemma {:induction false} PrefixOfChild(q: Path, s: Path, name: string)
    requires q <= s + [name] && !(q <= s)
    ensures q == s + [name]
  {
    if q != s + [name] {
      ProperPrefix(q, s, name);
    }
  }

  lemma {:induction false} MovingKeepsAligned(m: Move, root2: Node)
    requires Movable(m) && AllAligned(m.root) && Rerooted(m, root2)
    ensures AllAligned(root2)
  {
    hide Movable, Rerooted;
    forall s, t
      ensures Aligned(root2, s, t)
    {
      MovedAligned(m, root2, s, t);
    }
  }

  // ----- changes

  lemma {:induction false} MakingAllKeepsAligned(root: Node, host: Host, steps: seq<Path>, k: nat)
    requires AllAligned(root)
    ensures var o := CreateAll(root, host, steps, k); !o.AllPanic? ==> AllAligned(o.root)
    decreases |steps| - k
  {
    hide AllAligned, CreateDir;
    if k < |steps| {
      match CreateDir(root, host, steps[k])
      case Changed(root2, host2) =>
        CreateDirGrows(root, host, steps[k]);
        GrowingKeepsAligned(root, root2, steps[k], DirInfo(Some(Place(root, steps[k]))));
        MakingAllKeepsAligned(root2, host2, steps, k + 1);
      case Refused(AlreadyExist) => MakingAllKeepsAligned(root, host, steps, k + 1);
      case _ =>
    }
  }

  lemma {:induction false} RenamingKeepsAligned(root: Node, host: Host, q: Path, r: Path)
    requires Mirror(root, host) && AllAligned(root) && Rename(root, host, q, r).Changed?
    ensures AllAligned(Rename(root, host, q, r).root)
  {
    if !HostAgrees(root, host, q, r) {
      RefusedUnlessAgreed(root, host, Lookup(root, q).value, q, r);
    } else if IntoItself(q, r) {
      RenameIntoItself(root, host, q, r);
    } else {
      RenameViews(root, host, q, r);
      AgreedIsMovable(root, host, q, r);
      hide Rename, Movable, Rerooted, Mirror, View;
      MovingKeepsAligned(MoveOf(root, host, q, r), Rename(root, host, q, r).root);
    }
  }

  /** No change mounts anything, so that host paths stay in step. */
  lemma {:induction false} ChangeKeepsAligned(root: Node, host: Host, c: Change)
    requires Mirror(root, host) && AllAligned(root) && Apply(root, host, c).Changed?
    ensures AllAligned(Apply(root, host, c).root)
  {
    var o := Apply(root, host, c);
    match c
    case MakeDirectory(q) =>
      hide Mirror, AllAligned, CreateDir, View;
      CreateDirGrows(root, host, q);
      GrowingKeepsAligned(root, o.root, q, DirInfo(Some(Place(root, q))));
    case MakeAll(q) => MakingAllKeepsAligned(root, host, StepsTo(q), 0);
    case OpenFile(q, mode, contents) =>
      hide Mirror, AllAligned, Open, View, Vacant, Grown;
      OpenKeepsMirror(root, host, q, mode, contents);
      if Vacant(root, q) {
        GrowingKeepsAligned(root, o.root, q, FileInfo(HostFile(Place(root, q)), true));
      }
    case Delete(q) =>
      hide Mirror, AllAligned, RemoveNode, View;
      RemoveKeepsMirror(root, host, q);
      RemovingKeepsAligned(root, o.root, q);
    case MoveTo(q, r, found) =>
      RenameAnyCaseIs(root, host, q, r, found);
      RenamingKeepsAligned(root, host, q, r);
  }

  /** What remains of fairness if nothing is shared. */
  ghost predicate FairAlone(root: Node, host: Host, c: Change) {
    match c
    case Delete(q) => Removable(root, q) && HostOf(View(root, q).value).Some? ==>
      !HasMore(host, HostOf(View(root, q).value).value)
    case MoveTo(q, r, found) => Found(root, q, found) && HostAgrees(root, host, found, r) ==>
      found == q && !IntoItself(q, r) && Carried(host, Lookup(root, q).value, RenameSource(Lookup(root, q).value).value)
    case _ => Fair(root, host, c)
  }

  lemma {:induction false} NothingShared(root: Node, q: Path, p: Path)
    requires AllAligned(root) && HasHost(View(root, q), p)
    ensures Unshared(root, q, p)
    ensures Removable(root, q) ==> NobodyShares(root, q, p)
  {
    hide AllAligned, View, Removable;
    forall s
      ensures HasHost(View(root, s), p) ==> q <= s
      ensures Removable(root, q) ==> !Shares(root, q, p, s)
    {
      AlignedAt(root, q, s);
      if Removable(root, q) && q <= s && s != q {
        RemovableIsLeaf(root, q, s);
      }
    }
  }

  lemma {:induction false} LeavesNobodyAligned(root: Node, host: Host, q: Path, r: Path)
    requires Mirror(root, host) && AllAligned(root) && HostAgrees(root, host, q, r) && !IntoItself(q, r)
    ensures LeavesNobody(root, host, q, r) && OrphansNone(MoveOf(root, host, q, r))
  {
    AgreedIsMovable(root, host, q, r);
    hide Movable, AllAligned, Mirror, NobodyLeft, View, Orphaned;
    var m := MoveOf(root, host, q, r);
    NobodyIsLeft(m);
    forall s
      ensures !Orphaned(m, s)
    {
      NotOrphaned(m, s);
    }
  }

  /** With disjoint mounts fairness is about leftovers only. */
  lemma {:induction false} FairIffAlone(root: Node, host: Host, c: Change)
    requires Mirror(root, host) && AllAligned(root)
    ensures Fair(root, host, c) <==> FairAlone(root, host, c)
  {
    hide Mirror, AllAligned, View, Removable, HostAgrees, Carried, LeavesNobody;
    match c
    case Delete(q) =>
      if Removable(root, q) {
        RemovableIsThere(root, q);
        if HostOf(View(root, q).value).Some? {
          NothingShared(root, q, HostOf(View(root, q).value).value);
        }
      }
    case MoveTo(q, r, _) =>
      if HostAgrees(root, host, q, r) && !IntoItself(q, r) {
        LeavesNobodyAligned(root, host, q, r);
      }
    case _ =>
  }

  lemma {:induction false} RemovableIsThere(root: Node, q: Path)
    requires Removable(root, q)
    ensures View(root, q).Some?
  {
  }

  /** Over any fair history host paths stay in step, and so the next change has to be fair by itself only. */
  lemma {:induction false} HistoryKeepsAligned(root: Node, host: Host, changes: seq<Change>, root2: Node, host2: Host,
      next: Change)
    requires Mirror(root, host) && AllAligned(root) && History(root, host, changes, root2, host2)
    ensures Mirror(root2, host2) && AllAligned(root2)
    ensures var o := Apply(root2, host2, next);
      FairAlone(root2, host2, next) <==> !o.Panic? && (o.Changed? ==> Mirror(o.root, o.host))
    decreases |changes|
  {
    hide Mirror, AllAligned, Apply, Fair, FairAlone;
    if changes == [] {
      FairIffAlone(root, host, next);
      ChangeKeepsMirrorIffFair(root, host, next);
    } else {
      ChangeKeepsMirrorIffFair(root, host, changes[0]);
      match Apply(root, host, changes[0])
      case Changed(r, h) =>
        ChangeKeepsAligned(root, host, changes[0]);
        HistoryKeepsAligned(r, h, changes[1..], root2, host2, next);
      case Refused(_) => HistoryKeepsAligned(root, host, changes[1..], root2, host2, next);
    }
  }

  // ----- without leftovers

  /**
   What a caller has to see to: valid access modes, and renaming nothing into itself, with a mount inside or
   by a name of another case.
   */
  ghost predicate Proper(root: Node, host: Host, c: Change) {
    match c
    case OpenFile(q, asked, _) => AsksHost(root, q, Forced(asked)) ==> Forced(asked).Valid()
    case MoveTo(q, r, found) => Found(root, q, found) && HostAgrees(root, host, found, r) ==>
      found == q && !IntoItself(q, r) && MountFree(Lookup(root, q).value, RenameSource(Lookup(root, q).value).value)
    case _ => true
  }

  /** What is created is nowhere else. */
  lemma {:induction false} PlaceIsFree(root: Node, q: Path, directory: bool)
    requires AllAligned(root) && Vacant(root, q)
    ensures !HeldAs(root, Place(root, q), directory)
  {
    hide AllAligned, View;
    forall s
      ensures !HasHost(View(root, s), Place(root, q))
    {
      if HasHost(View(root, s), Place(root, q)) {
        NobodyUnderLeaf(root, q, View(root, Parent(q)).value.writeable.value, s);
      }
    }
  }

  lemma {:induction false} CarriedIffJoined(root: Node, q: Path, from: Path, x: Path)
    requires AllAligned(root) && HasHost(View(root, q), from)
    ensures CarriedByNode(root, Lookup(root, q).value, from, x) <==> Joined(Lookup(root, q).value, from, x)
  {
    var n := Lookup(root, q).value;
    LookupAppends(root, q, x);
    assert View(n, x) == View(root, q + x);
    hide AllAligned, View, Reached;
    assert (from + x)[|from|..] == x;
    forall s | HasHost(View(root, s), from + x)
      ensures s == q + x
    {
      AlignedAt(root, q, s);
      assert s == q + s[|q|..];
    }
  }

  /** No file stands in the way of what is created with its parents. */
  lemma {:induction false} WayIsFree(root: Node, q: Path)
    requires AllAligned(root)
    ensures !FileNodeInWay(root, q)
  {
    hide AllAligned, View;
    if FileNodeInWay(root, q) {
      var s :| HasHost(View(root, s), Landing(root, q).value);
      LandedIsThere(root, q, s);
      ViewPrefixOf(root, q, s);
    }
  }

  /** A node whose host path is where `q` would land is at `q`. */
  lemma {:induction false} LandedIsThere(root: Node, q: Path, s: Path)
    requires AllAligned(root) && Landing(root, q).Some? && View(root, s).Some? && HostOf(View(root, s).value).Some?
    requires Landing(root, q).value <= HostOf(View(root, s).value).value
    ensures q <= s
    ensures s[|q|..] == HostOf(View(root, s).value).value[|Landing(root, q).value|..]
    decreases |q|
  {
    hide AllAligned, View;
    AlignedAt(root, q, s);
    if View(root, q).None? {
      var h := Landing(root, Parent(q)).value;
      LandedIsThere(root, Parent(q), s);
      StepsDown(Parent(q), Name(q), s, h, HostOf(View(root, s).value).value);
      ParentName(q);
    }
  }

  /** With disjoint mounts all proper changes are private. */
  lemma {:induction false} PrivateIffProper(root: Node, host: Host, c: Change)
    requires Mirror(root, host) && AllAligned(root)
    ensures Private(root, host, c) <==> Proper(root, host, c)
    ensures Proper(root, host, c) ==> Sparing(root, host, c)
  {
    hide Mirror, AllAligned, View, Removable, HostAgrees, LeavesNobody, FileNodeInWay, NobodyShares, Vacant, Joined,
      CarriedByNode, AsksHost, OrphansNone;
    match c
    case MakeDirectory(q) =>
      if Vacant(root, q) {
        PlaceIsFree(root, q, false);
      }
    case MakeAll(q) =>
      forall i {:trigger q[..i]} | 0 < i <= |q|
        ensures !FileNodeInWay(root, q[..i])
      {
        WayIsFree(root, q[..i]);
      }
    case OpenFile(q, _, _) =>
      if Vacant(root, q) {
        PlaceIsFree(root, q, true);
      }
    case Delete(q) =>
      if Removable(root, q) {
        RemovableIsThere(root, q);
        if HostOf(View(root, q).value).Some? {
          NothingShared(root, q, HostOf(View(root, q).value).value);
        }
      }
    case MoveTo(q, r, _) =>
      FindsItself(root, q);
      hide Found;
      if HostAgrees(root, host, q, r) {
        AgreedHasHost(root, host, q, r);
        var n, from := Lookup(root, q).value, RenameSource(Lookup(root, q).value).value;
        forall x
          ensures CarriedByNode(root, n, from, x) <==> Joined(n, from, x)
        {
          CarriedIffJoined(root, q, from, x);
        }
        if !IntoItself(q, r) {
          LeavesNobodyAligned(root, host, q, r);
        }
      }
  }

  lemma {:induction false} AgreedHasHost(root: Node, host: Host, q: Path, r: Path)
    requires HostAgrees(root, host, q, r)
    ensures Lookup(root, q).Some? && RenameSource(Lookup(root, q).value).Some?
    ensures HasHost(View(root, q), RenameSource(Lookup(root, q).value).value)
  {
    SourceIsHost(root, q);
  }

  /** The state after proper changes. */
  ghost predicate ProperHistory(root: Node, host: Host, changes: seq<Change>, root2: Node, host2: Host)
    decreases |changes|
  {
    if changes == [] then root2 == root && host2 == host
    else
      Proper(root, host, changes[0]) && match Apply(root, host, changes[0])
        case Changed(r, h) => ProperHistory(r, h, changes[1..], root2, host2)
        case Refused(_) => ProperHistory(root, host, changes[1..], root2, host2)
        case Panic => false
  }

  /**
   From a state without leftovers and with disjoint mounts, after any proper changes, the next one fails
   unexpectedly, or makes some node fail, exactly if it is not proper.
   */
  lemma {:induction false} NothingFailsWithoutLeftovers(root: Node, host: Host, changes: seq<Change>, root2: Node,
      host2: Host, next: Change)
    requires Mirror(root, host) && AllAligned(root) && Full(root, host)
    requires ProperHistory(root, host, changes, root2, host2)
    ensures Mirror(root2, host2) && AllAligned(root2) && Full(root2, host2)
    ensures var o := Apply(root2, host2, next);
      Proper(root2, host2, next) <==> !o.Panic? && (o.Changed? ==> forall q :: !Unusable(o.root, o.host, q))
    decreases |changes|
  {
    hide Mirror, AllAligned, Full, Apply, Proper, Private, Fair, Sparing, Unusable;
    if changes == [] {
      PrivateIffProper(root, host, next);
      FairIffPrivate(root, host, next);
      FairIffNothingFails(root, host, next);
    } else {
      PrivateIffProper(root, host, changes[0]);
      FairIffPrivate(root, host, changes[0]);
      ChangeKeepsMirrorIffFair(root, host, changes[0]);
      FairKeepsFull(root, host, changes[0]);
      match Apply(root, host, changes[0])
      case Changed(r, h) =>
        ChangeKeepsAligned(root, host, changes[0]);
        NothingFailsWithoutLeftovers(r, h, changes[1..], root2, host2, next);
      case Refused(_) => NothingFailsWithoutLeftovers(root, host, changes[1..], root2, host2, next);
    }
  }
}
