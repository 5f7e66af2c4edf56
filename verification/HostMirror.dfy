/**
 The writeable parts of the guest file tree mirror directories of the host (src/fs.rs): which changes
 of the two keep them in step, so that opening, removing and renaming find on the host what the tree says.
 */
module HostMirror {
  import opened Common
  import opened FileTree

  // ----- the host's file system

  /** File contents stand for the identity of a host file. */
  datatype Entry = FileEntry(data: nat) | DirEntry

  type Host = map<Path, Entry>

  /** Everything lies in a directory. */
  ghost predicate Closed(host: Host) {
    forall p {:trigger Placed(host, p)} :: Placed(host, p)
  }

  predicate Placed(host: Host, p: Path) {
    p in host && p != [] ==> IsDir(host, Parent(p))
  }

  predicate IsDir(host: Host, p: Path) {
    p in host && host[p].DirEntry?
  }

  predicate IsEmptyDir(host: Host, p: Path) {
    IsDir(host, p) && forall k :: k in host && p <= k ==> k == p
  }

  datatype HostResult = HostOk(host: Host) | HostErr | AlreadyThere

  /** `std::fs::create_dir` */
  function HostCreateDir(host: Host, p: Path): HostResult {
    if p in host then AlreadyThere
    else if p == [] || !IsDir(host, Parent(p)) then HostErr
    else HostOk(host[p := DirEntry])
  }

  /** How a file is opened on the host; the standard library refuses opens without access and truncating appends. */
  datatype Mode = Mode(read: bool, write: bool, append: bool, create: bool, truncate: bool)
  {
    predicate Valid() {
      (read || write || append) && !(append && truncate) && ((truncate || create) ==> (write || append))
    }
  }

  /** `OpenOptions::open`. A new file gets the contents `contents`; a directory can be opened just for reading. */
  function HostOpen(host: Host, p: Path, mode: Mode, contents: nat): HostResult {
    if !mode.Valid() then HostErr
    else if p in host then
      if host[p].DirEntry? then (if mode.write || mode.append then HostErr else HostOk(host))
      else HostOk(if mode.truncate then host[p := FileEntry(contents)] else host)
    else if !mode.create || p == [] || !IsDir(host, Parent(p)) then HostErr
    else HostOk(host[p := FileEntry(contents)])
  }

  /** `std::fs::remove_file` */
  function HostRemoveFile(host: Host, p: Path): HostResult {
    if p in host && host[p].FileEntry? then HostOk(host - {p}) else HostErr
  }

  /** `std::fs::remove_dir` */
  function HostRemoveDir(host: Host, p: Path): HostResult {
    if IsEmptyDir(host, p) then HostOk(host - {p}) else HostErr
  }

  /** The host after everything at and under `from` went to `to`. */
  function Moved(host: Host, from: Path, to: Path): Host {
    var arrived := set p | p in host && from <= p :: to + p[|from|..];
    var kept := set p | p in host && !(from <= p) && !(to <= p);
    map p | p in arrived + kept ::
      if to <= p && from + p[|to|..] in host then host[from + p[|to|..]] else if p in host then host[p] else DirEntry
  }

  /** `rename(2)` */
  function HostRename(host: Host, from: Path, to: Path): HostResult {
    if from !in host || to == [] then HostErr
    else if from == to then HostOk(host)
    else if from <= to || !IsDir(host, Parent(to)) then HostErr
    else if to in host && !(if host[from].DirEntry? then IsEmptyDir(host, to) else host[to].FileEntry?) then HostErr
    else HostOk(Moved(host, from, to))
  }

  lemma {:induction false} MovedAt(host: Host, from: Path, to: Path, p: Path)
    requires from in host && !(from <= to) && !(to <= from)
    ensures var h2 := Moved(host, from, to);
      if to <= p then (p in h2 <==> from + p[|to|..] in host) && (p in h2 ==> h2[p] == host[from + p[|to|..]])
      else if from <= p then p !in h2
      else (p in h2 <==> p in host) && (p in h2 ==> h2[p] == host[p])
  {
    var arrived := set k | k in host && from <= k :: to + k[|from|..];
    if to <= p {
      var k := from + p[|to|..];
      assert from <= k && k[|from|..] == p[|to|..];
      assert to + p[|to|..] == p;
      if k in host {
        assert to + k[|from|..] in arrived;
      }
      if p in arrived {
        var k2 :| k2 in host && from <= k2 && p == to + k2[|from|..];
        assert p[|to|..] == k2[|from|..] && from + k2[|from|..] == k2;
      }
    } else {
      forall k | k in host && from <= k
        ensures to + k[|from|..] != p
      {
        assert to <= to + k[|from|..];
      }
    }
  }

  // ----- the mirror

  /** The host has an entry of the same kind for a backed node, and what can be written is backed. */
  ghost predicate Backed(host: Host, i: Info) {
    && (HostOf(i).Some? ==> HostOf(i).value in host && (i.DirInfo? <==> host[HostOf(i).value].DirEntry?))
    && (i.FileInfo? && i.canWrite ==> i.location.HostFile?)
  }

  /**
   The host has an entry for every backed node. It may have more, which an earlier run left behind in a
   directory that is not scanned when the tree is built; and nodes may share an entry, as where a host
   directory is mounted twice.
   */
  ghost predicate Mirror(root: Node, host: Host) {
    && Closed(host) && root.Directory?
    && (forall q {:trigger View(root, q)} :: View(root, q).Some? ==> Backed(host, View(root, q).value))
  }

  /** What the mirror says of one path. */
  lemma {:induction false} MirrorAt(root: Node, host: Host, q: Path)
    requires Mirror(root, host)
    ensures root.Directory? && Closed(host) && (View(root, q).Some? ==> Backed(host, View(root, q).value))
  {
  }

  lemma {:induction false} ParentOf(h: Path, name: string)
    ensures Parent(h + [name]) == h && Name(h + [name]) == name
  {
  }

  lemma {:induction false} ParentName(q: Path)
    requires q != []
    ensures Parent(q) + [Name(q)] == q
  {
  }

  lemma {:induction false} PrefixSameLength(a: Path, b: Path)
    ensures a <= b && |a| == |b| ==> a == b
  {
  }

  lemma {:induction false} PrefixTransitive(a: Path, b: Path, c: Path)
    requires a <= b <= c
    ensures a <= c
  {
  }

  lemma {:induction false} PrefixOfSum(q: Path, x: Path, t: Path)
    ensures q <= q + x && (q + x <= t ==> q <= t)
  {
  }

  /** Of two prefixes of a path the shorter is a prefix of the longer. */
  lemma {:induction false} PrefixesCompare(a: Path, b: Path, c: Path)
    requires a <= c && b <= c
    ensures |b| <= |a| ==> b <= a
  {
  }

  lemma {:induction false} ProperPrefix(a: Path, h: Path, name: string)
    requires a <= h + [name] && a != h + [name]
    ensures a <= h && (h + [name])[|a|..] == h[|a|..] + [name]
  {
    PrefixSameLength(a, h + [name]);
  }

  /** Under a path that the host does not have it has nothing. */
  lemma {:induction false} NothingUnder(host: Host, p: Path, k: Path)
    requires Closed(host) && k in host && p <= k
    ensures p in host
    decreases |k|
  {
    if k != p {
      assert Placed(host, k);
      NothingUnder(host, p, Parent(k));
    }
  }

  /** A host file has nothing under it. */
  lemma {:induction false} NothingUnderFile(host: Host, p: Path, k: Path)
    requires Closed(host) && p in host && host[p].FileEntry? && k in host && p <= k
    ensures k == p
    decreases |k|
  {
    if k != p {
      ProperPrefixOf(p, k);
      assert Placed(host, k);
      NothingUnderFile(host, p, Parent(k));
    }
  }

  lemma {:induction false} ProperPrefixOf(a: Path, k: Path)
    requires a <= k && a != k
    ensures k != [] && a <= Parent(k)
  {
    PrefixSameLength(a, k);
  }

  lemma {:induction false} PrefixOfParent(a: Path, k: Path)
    requires k != []
    ensures a <= Parent(k) ==> a <= k
  {
  }

  // ----- adding a leaf

  /**
   `q`, where there was no node, holds a leaf; its place on the host holds an entry of the same kind,
   which is new or was left over.
   */
  ghost predicate LeafAdded(root: Node, host: Host, root2: Node, host2: Host, q: Path, h: Path, i: Info, e: Entry) {
    && q != [] && View(root, q).None? && View(root, Parent(q)) == Some(DirInfo(Some(h)))
    && HostOf(i) == Some(h + [Name(q)]) && IsDir(host, h)
    && (h + [Name(q)] in host ==> (host[h + [Name(q)]].DirEntry? <==> e.DirEntry?))
    && host2 == host[h + [Name(q)] := e] && (i.DirInfo? <==> e.DirEntry?)
    && root2.Directory? && (forall s {:trigger View(root2, s)} ::
      View(root2, s) == if s == q then Some(i) else View(root, s))
  }

  lemma {:induction false} LeafAddedPlaced(root: Node, host: Host, root2: Node, host2: Host, q: Path, h: Path, i: Info,
      e: Entry, k: Path)
    requires Closed(host) && LeafAdded(root, host, root2, host2, q, h, i, e)
    ensures Placed(host2, k)
  {
    hide View;
    ParentOf(h, Name(q));
    assert Placed(host, k);
  }

  lemma {:induction false} ViewPrefixOf(n: Node, q: Path, s: Path)
    requires View(n, s).Some? && q <= s
    ensures View(n, q).Some?
  {
    ViewPrefix(n, q, s);
  }

  lemma {:induction false} LeafAddedBacked(root: Node, host: Host, root2: Node, host2: Host, q: Path, h: Path, i: Info,
      e: Entry, s: Path)
    requires Mirror(root, host) && LeafAdded(root, host, root2, host2, q, h, i, e) && View(root2, s).Some?
    requires i.FileInfo? && i.canWrite ==> i.location.HostFile?
    ensures Backed(host2, View(root2, s).value)
  {
    hide Mirror, View;
    MirrorAt(root, host, s);
  }

  lemma {:induction false} AddingLeafKeepsMirror(root: Node, host: Host, root2: Node, host2: Host, q: Path, h: Path,
      i: Info, e: Entry)
    requires Mirror(root, host) && LeafAdded(root, host, root2, host2, q, h, i, e)
    ensures Mirror(root2, host2)
  {
    MirrorAt(root, host, q);
    forall k
      ensures Placed(host2, k)
    {
      LeafAddedPlaced(root, host, root2, host2, q, h, i, e, k);
    }
    forall s | View(root2, s).Some?
      ensures Backed(host2, View(root2, s).value)
    {
      LeafAddedBacked(root, host, root2, host2, q, h, i, e, s);
    }
  }

  // ----- removing a leaf

  /** The node at `q`, which has none under it, is gone, and so is its host entry, which had nothing under it. */
  ghost predicate LeafRemoved(root: Node, host: Host, root2: Node, host2: Host, q: Path, p: Path) {
    && q != [] && View(root, q).Some? && HostOf(View(root, q).value) == Some(p) && host2 == host - {p}
    && (forall k :: k in host && p <= k ==> k == p)
    && root2.Directory? && (forall s {:trigger View(root2, s)} ::
      View(root2, s) == if q <= s then None else View(root, s))
  }

  predicate HasHost(i: Option<Info>, p: Path) {
    i.Some? && HostOf(i.value) == Some(p)
  }

  /** No node but the one at `q`, and what is below it, has the host path `p`. */
  ghost predicate Unshared(root: Node, q: Path, p: Path) {
    forall s {:trigger View(root, s)} :: HasHost(View(root, s), p) ==> q <= s
  }

  /** Removing a node and its host entry keeps the mirror exactly if no other node has that entry. */
  lemma {:induction false} RemovalKeepsMirrorIffUnshared(root: Node, host: Host, root2: Node, host2: Host, q: Path,
      p: Path)
    requires Mirror(root, host) && LeafRemoved(root, host, root2, host2, q, p)
    ensures Mirror(root2, host2) <==> Unshared(root, q, p)
  {
    if Unshared(root, q, p) {
      forall k
        ensures Placed(host2, k)
      {
        LeafRemovedPlaced(root, host, root2, host2, q, p, k);
      }
      forall s | View(root2, s).Some?
        ensures Backed(host2, View(root2, s).value)
      {
        MirrorAt(root, host, s);
      }
    } else {
      var s :| HasHost(View(root, s), p) && !(q <= s);
      assert View(root2, s) == View(root, s);
    }
  }

  lemma {:induction false} LeafRemovedPlaced(root: Node, host: Host, root2: Node, host2: Host, q: Path, p: Path,
      k: Path)
    requires Mirror(root, host) && LeafRemoved(root, host, root2, host2, q, p)
    ensures Placed(host2, k)
  {
    hide Mirror, View;
    MirrorAt(root, host, q);
    assert Placed(host, k);
    if k in host2 && k != [] && Parent(k) == p {
      PrefixOfParent(p, k);
    }
  }

  // ----- moving a subtree

  /** The node at `q`, with host path `from`, is to go to `r`, with host path `to`, in the writeable directory `dir`. */
  datatype Move = Move(root: Node, host: Host, q: Path, r: Path, from: Path, to: Path, dir: Path)

  /**
   The host agreed to the move, which on the host may go nowhere, and the target is not inside the moved
   tree. What the host has at the target is of the source's kind and has nothing below it.
   */
  ghost predicate Movable(m: Move) {
    && Mirror(m.root, m.host) && m.q != [] && m.r != [] && !(m.q <= m.r && m.q != m.r)
    && View(m.root, m.q).Some? && HostOf(View(m.root, m.q).value) == Some(m.from)
    && View(m.root, Parent(m.r)) == Some(DirInfo(Some(m.dir))) && m.to == m.dir + [Name(m.r)]
    && (m.from != m.to ==> !(m.from <= m.to) && (m.to in m.host ==> Replaceable(m.host, m.from, m.to)))
  }

  ghost predicate Replaceable(host: Host, from: Path, to: Path) {
    && from in host && to in host && (host[from].DirEntry? <==> host[to].DirEntry?)
    && forall k :: k in host && to <= k ==> k == to
  }

  function MovedNode(m: Move): Node
    requires View(m.root, m.q).Some?
  {
    Lookup(m.root, m.q).value
  }

  /**
   Under `from` the host has an entry of the right kind for every node of `n` that
   `update_host_paths_recursively` reaches. Nodes that are not mounted have theirs there.
   */
  ghost predicate Carried(host: Host, n: Node, from: Path) {
    forall x {:trigger Carries(host, n, from, x)} :: Carries(host, n, from, x)
  }

  ghost predicate Carries(host: Host, n: Node, from: Path, x: Path) {
    Reached(n, x) && View(n, x).Some? ==> Backed(host, MovedInfo(View(n, x).value, from + x))
  }

  lemma {:induction false} CarriedAt(host: Host, n: Node, from: Path, x: Path)
    requires Carried(host, n, from)
    ensures Carries(host, n, from, x)
  {
  }

  /** No mount: all backed nodes that are reached lie in the host directory they are reached through. */
  ghost predicate MountFree(n: Node, from: Path) {
    forall x {:trigger Joined(n, from, x)} :: Joined(n, from, x)
  }

  predicate Joined(n: Node, from: Path, x: Path) {
    Reached(n, x) && View(n, x).Some? && HostOf(View(n, x).value).Some? ==> HostOf(View(n, x).value) == Some(from + x)
  }

  /** What has no mount is carried along. */
  lemma {:induction false} MountFreeIsCarried(root: Node, host: Host, q: Path, from: Path)
    requires Mirror(root, host) && View(root, q).Some? && MountFree(Lookup(root, q).value, from)
    ensures Carried(host, Lookup(root, q).value, from)
  {
    var n := Lookup(root, q).value;
    forall x
      ensures Carries(host, n, from, x)
    {
      LookupAppends(root, q, x);
      assert View(n, x) == View(root, q + x);
      assert Joined(n, from, x);
      MirrorAt(root, host, q + x);
    }
  }

  function ViewMoved(m: Move, s: Path): Option<Info>
    requires View(m.root, m.q).Some?
  {
    if m.r <= s then
      var x := s[|m.r|..];
      match View(MovedNode(m), x)
      case None => None
      case Some(i) => Some(if Reached(MovedNode(m), x) then MovedInfo(i, m.to + x) else i)
    else if m.q <= s then None
    else View(m.root, s)
  }

  ghost predicate Rerooted(m: Move, root2: Node)
    requires View(m.root, m.q).Some?
  {
    root2.Directory? && forall s {:trigger View(root2, s)} :: View(root2, s) == ViewMoved(m, s)
  }

  lemma {:induction false} ViewBelow(m: Move, x: Path)
    requires View(m.root, m.q).Some?
    ensures View(MovedNode(m), x) == View(m.root, m.q + x)
  {
    LookupAppends(m.root, m.q, x);
  }

  lemma {:induction false} TargetNotAbove(m: Move)
    requires Movable(m)
    ensures m.from in m.host && IsDir(m.host, m.dir) && Closed(m.host) && (m.from != m.to ==> !(m.to <= m.from))
  {
    hide Mirror, View;
    MirrorAt(m.root, m.host, m.q);
    MirrorAt(m.root, m.host, Parent(m.r));
    if m.from != m.to && m.to <= m.from {
      NothingUnder(m.host, m.to, m.from);
    }
  }

  ghost function HostAfter(m: Move): Host {
    if m.from == m.to then m.host else Moved(m.host, m.from, m.to)
  }

  /** Where the host's entries are after the move. */
  lemma {:induction false} HostAfterAt(m: Move, p: Path)
    requires Movable(m)
    ensures var h2 := HostAfter(m);
      if m.to <= p then
        (p in h2 <==> m.from + p[|m.to|..] in m.host) && (p in h2 ==> h2[p] == m.host[m.from + p[|m.to|..]])
      else if m.from <= p then p !in h2
      else (p in h2 <==> p in m.host) && (p in h2 ==> h2[p] == m.host[p])
  {
    TargetNotAbove(m);
    hide Mirror, View, Moved;
    if m.from == m.to {
      if m.to <= p {
        assert m.to + p[|m.to|..] == p;
      }
    } else {
      MovedAt(m.host, m.from, m.to, p);
    }
  }

  lemma {:induction false} ParentIsDir(root: Node, u: Path)
    requires u != [] && View(root, u).Some?
    ensures View(root, Parent(u)).Some? && View(root, Parent(u)).value.DirInfo?
  {
    ViewParent(root, u);
  }

  lemma {:induction false} ReachedRoot(n: Node)
    ensures Reached(n, [])
  {
  }

  /** A child is reached exactly when its parent is reached and a writeable directory. */
  lemma {:induction false} ReachedStep(n: Node, y: Path)
    requires y != [] && View(n, y).Some?
    ensures View(n, Parent(y)).Some? && View(n, Parent(y)).value.DirInfo?
    ensures Reached(n, y) <==> Reached(n, Parent(y)) && View(n, Parent(y)).value.writeable.Some?
    decreases |y|
  {
    ViewParent(n, y);
    if |y| == 1 {
      assert Parent(y) == [] && y[1..] == [];
    } else {
      assert Parent(y)[0] == y[0] && Parent(y)[1..] == Parent(y[1..]);
      assert View(n, y) == View(n.children[y[0]], y[1..]);
      ReachedStep(n.children[y[0]], y[1..]);
    }
  }

  lemma {:induction false} MovedPlaced(m: Move, k: Path)
    requires Movable(m)
    ensures Placed(HostAfter(m), k)
  {
    hide Mirror, View, HostAfter;
    TargetNotAbove(m);
    var h2 := HostAfter(m);
    if k in h2 && k != [] {
      HostAfterAt(m, k);
      HostAfterAt(m, Parent(k));
      if m.to <= k && k != m.to {
        ProperPrefixOf(m.to, k);
        var x := k[|m.to|..];
        assert Placed(m.host, m.from + x);
        assert Parent(k)[|m.to|..] == Parent(x) && Parent(m.from + x) == m.from + Parent(x);
      } else if k == m.to {
        ParentOf(m.dir, Name(m.r));
        PrefixOfParent(m.from, m.to);
        TargetDirStays(m);
      } else {
        assert Placed(m.host, k);
        PrefixOfParent(m.from, k);
        PrefixOfParent(m.to, k);
      }
    }
  }

  /** The directory of the target is not moved. */
  lemma {:induction false} TargetDirStays(m: Move)
    requires Movable(m)
    ensures !(m.from <= m.dir) && !(m.to <= m.dir)
  {
    hide Mirror, View;
    ParentOf(m.dir, Name(m.r));
    PrefixOfParent(m.from, m.to);
  }

  /** After the move the node at `s` is still there, here or at the target, with its host path unchanged. */
  predicate Stays(m: Move, s: Path)
    requires View(m.root, m.q).Some?
  {
    if m.q <= s then !Reached(MovedNode(m), s[|m.q|..]) else !(m.r <= s)
  }

  /** A node keeps a host path that the move takes away. */
  predicate LeftBehind(m: Move, s: Path)
    requires View(m.root, m.q).Some?
  {
    && Stays(m, s) && View(m.root, s).Some? && HostOf(View(m.root, s).value).Some?
    && m.from <= HostOf(View(m.root, s).value).value
  }

  /** The host path goes nowhere, or nothing that has it or one under it stays where it is. */
  ghost predicate NobodyLeft(m: Move)
    requires View(m.root, m.q).Some?
  {
    m.from == m.to || forall s {:trigger LeftBehind(m, s)} :: !LeftBehind(m, s)
  }

  /** What is at and under both host paths of a move. */
  lemma {:induction false} NotBoth(m: Move, g: Path)
    requires Movable(m) && m.from != m.to
    ensures !(m.from <= g && m.to <= g)
  {
    TargetNotAbove(m);
    hide Mirror, View;
    if m.from <= g && m.to <= g {
      PrefixesCompare(m.from, m.to, g);
      PrefixesCompare(m.to, m.from, g);
    }
  }

  /** A node that stays is backed afterwards exactly if it is not left behind. */
  lemma {:induction false} StayingBacked(m: Move, s: Path)
    requires Movable(m) && Stays(m, s) && View(m.root, s).Some?
    ensures Backed(HostAfter(m), View(m.root, s).value) <==> m.from == m.to || !LeftBehind(m, s)
  {
    hide Mirror, View, HostAfter, Reached;
    MirrorAt(m.root, m.host, s);
    if HostOf(View(m.root, s).value).Some? {
      var g := HostOf(View(m.root, s).value).value;
      HostAfterAt(m, g);
      if m.from == m.to {
        SameHostBacks(m, View(m.root, s).value);
      } else {
        NotBoth(m, g);
        if m.to <= g {
          NothingUnder(m.host, m.to, g);
          assert m.from + g[|m.to|..] == m.from;
        }
      }
    }
  }

  lemma {:induction false} SameHostBacks(m: Move, i: Info)
    requires m.from == m.to
    ensures Backed(HostAfter(m), i) == Backed(m.host, i)
  {
  }

  /** A node that is carried along is backed afterwards exactly if the host has its entry in the moved directory. */
  lemma {:induction false} CarriedBacked(m: Move, x: Path)
    requires Movable(m) && View(m.root, m.q + x).Some? && Reached(MovedNode(m), x)
    ensures Backed(HostAfter(m), MovedInfo(View(m.root, m.q + x).value, m.to + x)) <==>
      Carries(m.host, MovedNode(m), m.from, x)
  {
    hide Mirror, View, HostAfter, Reached;
    ViewBelow(m, x);
    MirrorAt(m.root, m.host, m.q + x);
    HostAfterAt(m, m.to + x);
    assert (m.to + x)[|m.to|..] == x;
  }

  lemma {:induction false} MovedBacked(m: Move, root2: Node, s: Path)
    requires Movable(m) && Carried(m.host, MovedNode(m), m.from) && NobodyLeft(m) && Rerooted(m, root2)
    requires View(root2, s).Some?
    ensures Backed(HostAfter(m), View(root2, s).value)
  {
    hide Mirror, View, HostAfter, Reached, Carried;
    if m.r <= s {
      var x := s[|m.r|..];
      ViewBelow(m, x);
      assert (m.q + x)[|m.q|..] == x;
      if Reached(MovedNode(m), x) {
        CarriedAt(m.host, MovedNode(m), m.from, x);
        CarriedBacked(m, x);
      } else {
        StayingBacked(m, m.q + x);
        assert m.from == m.to || !LeftBehind(m, m.q + x);
      }
    } else {
      StayingBacked(m, s);
      assert m.from == m.to || !LeftBehind(m, s);
    }
  }

  /** Nothing in the moved tree is above the target. */
  lemma {:induction false} SourceNotAbove(m: Move, x: Path)
    requires Movable(m)
    ensures !(m.q + x <= Parent(m.r))
  {
    hide Mirror, View;
    PrefixOfSum(m.q, x, Parent(m.r));
    PrefixOfParent(m.q, m.r);
  }

  lemma {:induction false} MovingKeepsMirror(m: Move, root2: Node)
    requires Movable(m) && Carried(m.host, MovedNode(m), m.from) && NobodyLeft(m) && Rerooted(m, root2)
    ensures Mirror(root2, HostAfter(m))
  {
    forall k
      ensures Placed(HostAfter(m), k)
    {
      MovedPlaced(m, k);
    }
    forall s | View(root2, s).Some?
      ensures Backed(HostAfter(m), View(root2, s).value)
    {
      MovedBacked(m, root2, s);
    }
  }

  /** A node that the host cannot carry along gets a host path where the host has nothing, or nothing of its kind. */
  lemma {:induction false} StrandedBreaksMirror(m: Move, root2: Node, x: Path)
    requires Movable(m) && Rerooted(m, root2) && !Carries(m.host, MovedNode(m), m.from, x)
    ensures !Mirror(root2, HostAfter(m))
  {
    hide View, HostAfter, Reached, Mirror;
    ViewBelow(m, x);
    CarriedBacked(m, x);
    assert m.r <= m.r + x && (m.r + x)[|m.r|..] == x;
    if Mirror(root2, HostAfter(m)) {
      MirrorAt(root2, HostAfter(m), m.r + x);
    }
  }

  /** A node that is left behind has lost its host entry. */
  lemma {:induction false} LeftBehindBreaksMirror(m: Move, root2: Node, s: Path)
    requires Movable(m) && Rerooted(m, root2) && m.from != m.to && LeftBehind(m, s)
    ensures !Mirror(root2, HostAfter(m))
  {
    hide View, HostAfter, Reached, Mirror;
    StayingBacked(m, s);
    var t := if m.q <= s then m.r + s[|m.q|..] else s;
    if m.q <= s {
      ViewBelow(m, s[|m.q|..]);
      assert m.q + s[|m.q|..] == s && m.r <= t && t[|m.r|..] == s[|m.q|..];
    }
    assert View(root2, t) == View(m.root, s);
    if Mirror(root2, HostAfter(m)) {
      MirrorAt(root2, HostAfter(m), t);
    }
  }

  /**
   A move keeps the mirror exactly if the host carries the moved tree along and nothing is left behind: a
   node that is not moved, or not reached, with a host path that is.
   */
  lemma {:induction false} MoveKeepsMirrorIffCarried(m: Move, root2: Node)
    requires Movable(m) && Rerooted(m, root2)
    ensures Mirror(root2, HostAfter(m)) <==> Carried(m.host, MovedNode(m), m.from) && NobodyLeft(m)
  {
    assert View(m.root, m.q).Some?;
    hide Mirror, Movable, Rerooted, LeftBehind;
    if !Carried(m.host, MovedNode(m), m.from) {
      var x :| !Carries(m.host, MovedNode(m), m.from, x);
      StrandedBreaksMirror(m, root2, x);
    } else if NobodyLeft(m) {
      MovingKeepsMirror(m, root2);
    } else {
      var s :| LeftBehind(m, s);
      LeftBehindBreaksMirror(m, root2, s);
    }
  }
}
