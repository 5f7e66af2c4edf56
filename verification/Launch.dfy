/**
 The guest file tree at the start (src/fs.rs): host directories read in and mounted, one of them left
 unread and one mounted twice. It mirrors the host whatever earlier runs left there.
 */
module Launch {
  import opened Common
  import opened FileTree
  import opened HostMirror
  import opened Vfs
  import opened NoLeftovers
  import opened DisjointMounts

  // ----- reading a host directory

  /** The host's entries at and under `h`. */
  function Under(host: Host, h: Path): set<Path> {
    set k | k in host && h <= k
  }

  function NamesIn(host: Host, h: Path): (names: set<string>)
    ensures forall name :: name in names <==> h + [name] in host
  {
    var names := set k | k in host && k != [] && Parent(k) == h :: Name(k);
    NamesInHost(host, h, names);
    names
  }

  lemma {:induction false} NamesInHost(host: Host, h: Path, names: set<string>)
    requires names == set k | k in host && k != [] && Parent(k) == h :: Name(k)
    ensures forall name :: name in names <==> h + [name] in host
  {
    forall name
      ensures name in names <==> h + [name] in host
    {
      ParentOf(h, name);
      if name in names {
        var k :| k in host && k != [] && Parent(k) == h && Name(k) == name;
        ParentName(k);
      }
    }
  }

  lemma {:induction false} UnderShrinks(host: Host, h: Path)
    requires h in host
    ensures forall name :: |Under(host, h + [name])| < |Under(host, h)|
  {
    forall name
      ensures |Under(host, h + [name])| < |Under(host, h)|
    {
      assert h in Under(host, h) && h !in Under(host, h + [name]);
      assert Under(host, h + [name]) <= Under(host, h) - {h};
      SubsetSize(Under(host, h + [name]), Under(host, h) - {h});
    }
  }

  /** `from_host_dir` */
  function FromHostDir(host: Host, h: Path, canWrite: bool): Node
    requires IsDir(host, h)
    decreases |Under(host, h)|
  {
    UnderShrinks(host, h);
    var children := map name | name in NamesIn(host, h) ::
      if host[h + [name]].FileEntry? then File(HostFile(h + [name]), canWrite)
        else FromHostDir(host, h + [name], canWrite);
    Directory(children, if canWrite then Some(h) else None)
  }

  function ReadInfo(host: Host, p: Path, canWrite: bool): Info
    requires p in host
  {
    if host[p].FileEntry? then FileInfo(HostFile(p), canWrite) else DirInfo(if canWrite then Some(p) else None)
  }

  /** What is read is just what the host has. */
  lemma {:induction false} ViewFromHost(host: Host, h: Path, canWrite: bool, x: Path)
    requires Closed(host) && IsDir(host, h)
    ensures View(FromHostDir(host, h, canWrite), x) == if h + x in host then Some(ReadInfo(host, h + x, canWrite))
      else None
    decreases |x|
  {
    var n := FromHostDir(host, h, canWrite);
    if x == [] {
      assert h + x == h;
    } else {
      var p := h + [x[0]];
      assert h + x == p + x[1..] && p <= h + x;
      if h + x in host {
        NothingUnder(host, p, h + x);
      }
      if p in host {
        if host[p].DirEntry? {
          ViewFromHost(host, p, canWrite, x[1..]);
        } else {
          assert n.children[x[0]] == File(HostFile(p), canWrite);
          assert x[1..] == [] <==> h + x == p;
          if h + x in host {
            NothingUnderFile(host, p, h + x);
          }
          assert View(n, x) == View(File(HostFile(p), canWrite), x[1..]);
        }
      }
    }
  }

  lemma {:induction false} ReadAligned(host: Host, h: Path, canWrite: bool, q: Path, r: Path)
    requires Closed(host) && IsDir(host, h)
    ensures Aligned(FromHostDir(host, h, canWrite), q, r)
  {
    hide View, FromHostDir;
    ViewFromHost(host, h, canWrite, q);
    ViewFromHost(host, h, canWrite, r);
    if h + q <= h + r {
      SameStep(h, [], q, r);
      assert [] + q == q && [] + r == r;
      if q != r {
        assert Parent(h + r) == h + Parent(r);
        ViewFromHost(host, h, canWrite, Parent(r));
        assert Placed(host, h + r);
        if h + q in host && h + r in host && host[h + q].FileEntry? {
          NothingUnderFile(host, h + q, h + r);
        }
      }
    }
  }

  /** A directory just read mirrors the host, in step with it. */
  lemma {:induction false} ReadMirrors(host: Host, h: Path, canWrite: bool)
    requires Closed(host) && IsDir(host, h)
    ensures Mirror(FromHostDir(host, h, canWrite), host) && AllAligned(FromHostDir(host, h, canWrite))
  {
    var n := FromHostDir(host, h, canWrite);
    assert n.Directory?;
    hide FromHostDir, View, Aligned;
    forall q | View(n, q).Some?
      ensures Backed(host, View(n, q).value)
    {
      ViewFromHost(host, h, canWrite, q);
    }
    forall q, r
      ensures Aligned(n, q, r)
    {
      ReadAligned(host, h, canWrite, q, r);
    }
  }

  /** All of the directory is read. */
  lemma {:induction false} ReadIsFull(host: Host, h: Path)
    requires Closed(host) && IsDir(host, h)
    ensures Full(FromHostDir(host, h, true), host)
  {
    var n := FromHostDir(host, h, true);
    hide FromHostDir, View;
    forall q
      ensures Complete(n, host, q)
    {
      ViewFromHost(host, h, true, q);
      forall name | h + q + [name] in host
        ensures Held(n, h + q + [name])
      {
        ViewFromHost(host, h, true, q + [name]);
        assert h + (q + [name]) == h + q + [name];
        Holds(n, q + [name], h + q + [name]);
      }
    }
  }

  lemma {:induction false} ReadIsAttached(host: Host, h: Path, mounts: set<Option<Path>>)
    requires Closed(host) && IsDir(host, h)
    ensures AllAttached(FromHostDir(host, h, true), mounts)
  {
    var n := FromHostDir(host, h, true);
    hide FromHostDir, View;
    forall q
      ensures Attached(n, mounts, q)
    {
      ViewFromHost(host, h, true, q);
      if q != [] {
        ViewFromHost(host, h, true, Parent(q));
        ParentName(q);
        assert h + q == h + Parent(q) + [Name(q)];
      }
    }
  }

  // ----- mounting

  datatype Mount = Mount(at: Path, node: Node)

  ghost predicate Mountable(root: Node, m: Mount) {
    m.at != [] && View(root, m.at).None? && View(root, Parent(m.at)).Some? && View(root, Parent(m.at)).value.DirInfo?
  }

  lemma {:induction false} MountableHasParent(root: Node, m: Mount)
    requires Mountable(root, m)
    ensures HasParent(root, m.at)
  {
  }

  /** No host path of the one tree lies under one of the other. */
  ghost predicate Apart(a: Node, b: Node) {
    forall s, x {:trigger View(a, s), View(b, x)} :: ApartAt(View(a, s), View(b, x))
  }

  predicate ApartAt(i: Option<Info>, j: Option<Info>) {
    i.Some? && j.Some? && HostOf(i.value).Some? && HostOf(j.value).Some? ==>
      !(HostOf(i.value).value <= HostOf(j.value).value) && !(HostOf(j.value).value <= HostOf(i.value).value)
  }

  lemma {:induction false} ViewMounted(root: Node, m: Mount, s: Path)
    requires Mountable(root, m)
    ensures HasParent(root, m.at)
    ensures View(Insert(root, m.at, m.node), s) == if m.at <= s then View(m.node, s[|m.at|..]) else View(root, s)
  {
    ViewInsert(root, m.at, m.node, s);
  }

  /** Mounting a tree that mirrors the host keeps the mirror, wherever on the host that tree lies. */
  lemma {:induction false} MountingKeepsMirror(root: Node, m: Mount, host: Host)
    requires Mirror(root, host) && Mountable(root, m) && Mirror(m.node, host)
    ensures HasParent(root, m.at) && Mirror(Insert(root, m.at, m.node), host)
  {
    MountableHasParent(root, m);
    MirrorAt(root, host, []);
    var root2 := Insert(root, m.at, m.node);
    assert root2.Directory?;
    hide Mountable, View, Insert;
    forall s | View(root2, s).Some?
      ensures Backed(host, View(root2, s).value)
    {
      ViewMounted(root, m, s);
      MirrorAt(root, host, s);
      MirrorAt(m.node, host, s[if m.at <= s then |m.at| else 0..]);
    }
  }

  lemma {:induction false} MountedAligned(root: Node, m: Mount, q: Path, r: Path)
    requires AllAligned(root) && Mountable(root, m) && AllAligned(m.node) && Apart(root, m.node)
      && HasParent(root, m.at)
    ensures Aligned(Insert(root, m.at, m.node), q, r)
  {
    var root2 := Insert(root, m.at, m.node);
    hide AllAligned, View, Insert;
    ViewMounted(root, m, q);
    ViewMounted(root, m, r);
    var x, y := q[if m.at <= q then |m.at| else 0..], r[if m.at <= r then |m.at| else 0..];
    assert ApartAt(View(root, q), View(m.node, y)) && ApartAt(View(root, r), View(m.node, x));
    if m.at <= q && m.at <= r {
      AlignedAt(m.node, x, y);
      assert q == m.at + x && r == m.at + y;
      if x <= y {
        SameStep([], m.at, x, y);
        if y != [] {
          ViewMounted(root, m, Parent(r));
          assert Parent(r)[|m.at|..] == Parent(y);
        }
      }
    } else if !(m.at <= q) && !(m.at <= r) {
      AlignedAt(root, q, r);
      if r != [] {
        ViewMounted(root, m, Parent(r));
        PrefixOfParent(m.at, r);
      }
    }
  }

  /** Mounting what lies elsewhere on the host keeps host paths in step. */
  lemma {:induction false} MountingKeepsAligned(root: Node, m: Mount)
    requires AllAligned(root) && Mountable(root, m) && AllAligned(m.node) && Apart(root, m.node)
    ensures HasParent(root, m.at) && AllAligned(Insert(root, m.at, m.node))
  {
    MountableHasParent(root, m);
    hide Apart, Mountable, View, Insert, Aligned;
    forall q, r
      ensures Aligned(Insert(root, m.at, m.node), q, r)
    {
      MountedAligned(root, m, q, r);
    }
  }

  /** Mounting leaves nothing over. */
  lemma {:induction false} MountingKeepsFull(root: Node, m: Mount, host: Host)
    requires Mountable(root, m) && Full(root, host) && Full(m.node, host)
    ensures HasParent(root, m.at) && Full(Insert(root, m.at, m.node), host)
  {
    MountableHasParent(root, m);
    var root2 := Insert(root, m.at, m.node);
    hide View, Insert, Full;
    forall s
      ensures Complete(root2, host, s)
    {
      MountedComplete(root, m, host, s);
    }
    FullIfComplete(root2, host);
  }

  lemma {:induction false} MountedComplete(root: Node, m: Mount, host: Host, s: Path)
    requires Mountable(root, m) && Full(root, host) && Full(m.node, host) && HasParent(root, m.at)
    ensures Complete(Insert(root, m.at, m.node), host, s)
  {
    var root2 := Insert(root, m.at, m.node);
    hide View, Insert, Full, HasParent;
    ViewMounted(root, m, s);
    match View(root2, s)
    case Some(DirInfo(Some(h))) =>
      forall name | h + [name] in host
        ensures Held(root2, h + [name])
      {
        if m.at <= s {
          FullAt(m.node, host, s[|m.at|..]);
          var t :| HasHost(View(m.node, t), h + [name]);
          ViewMounted(root, m, m.at + t);
          assert (m.at + t)[|m.at|..] == t;
          Holds(root2, m.at + t, h + [name]);
        } else {
          FullAt(root, host, s);
          var t :| HasHost(View(root, t), h + [name]);
          StillThere(root, m, t);
          Holds(root2, t, h + [name]);
        }
      }
    case _ =>
  }

  /** There was nothing where something is mounted. */
  lemma {:induction false} StillThere(root: Node, m: Mount, t: Path)
    requires Mountable(root, m) && View(root, t).Some?
    ensures HasParent(root, m.at) && View(Insert(root, m.at, m.node), t) == View(root, t)
  {
    hide Insert;
    ViewMounted(root, m, t);
    if m.at <= t {
      ViewPrefixOf(root, m.at, t);
    }
  }

  lemma {:induction false} MountingKeepsAttached(root: Node, m: Mount, mounts: set<Option<Path>>)
    requires Mountable(root, m) && AllAttached(root, mounts) && AllAttached(m.node, mounts)
    requires m.node.Directory? && m.node.writeable in mounts
    ensures HasParent(root, m.at) && AllAttached(Insert(root, m.at, m.node), mounts)
  {
    MountableHasParent(root, m);
    var root2 := Insert(root, m.at, m.node);
    assert View(m.node, []) == Some(DirInfo(m.node.writeable));
    hide View, Insert, AllAttached, HasParent;
    forall s
      ensures Attached(root2, mounts, s)
    {
      ViewMounted(root, m, s);
      if s != [] {
        ViewMounted(root, m, Parent(s));
        PrefixOfParent(m.at, s);
        if m.at <= s && m.at != s {
          ProperPrefixOf(m.at, s);
          AttachedAt(m.node, mounts, s[|m.at|..]);
          assert Parent(s)[|m.at|..] == Parent(s[|m.at|..]);
        } else if m.at == s {
          assert s[|m.at|..] == [];
        } else {
          AttachedAt(root, mounts, s);
        }
      }
    }
    AllAttachedIf(root2, mounts);
  }

  lemma {:induction false} AllAttachedIf(root: Node, mounts: set<Option<Path>>)
    requires forall s {:trigger Attached(root, mounts, s)} :: Attached(root, mounts, s)
    ensures AllAttached(root, mounts)
  {
  }

  /** All host paths of `n` lie in the host directories `dirs`. */
  ghost predicate HostsIn(n: Node, dirs: set<Path>) {
    forall x {:trigger View(n, x)} :: View(n, x).Some? && HostOf(View(n, x).value).Some? ==>
      exists d :: d in dirs && d <= HostOf(View(n, x).value).value
  }

  predicate Disjoint(a: Path, b: Path) {
    !(a <= b) && !(b <= a)
  }

  lemma {:induction false} DisjointAreApart(a: Node, b: Node, da: set<Path>, db: set<Path>)
    requires HostsIn(a, da) && HostsIn(b, db) && forall d, e :: d in da && e in db ==> Disjoint(d, e)
    ensures Apart(a, b)
  {
    hide View;
    forall s, x
      ensures ApartAt(View(a, s), View(b, x))
    {
      var i, j := View(a, s), View(b, x);
      if i.Some? && j.Some? && HostOf(i.value).Some? && HostOf(j.value).Some? {
        var d :| d in da && d <= HostOf(i.value).value;
        var e :| e in db && e <= HostOf(j.value).value;
        UnderDisjoint(d, e, HostOf(i.value).value, HostOf(j.value).value);
      }
    }
  }

  lemma {:induction false} UnderDisjoint(d: Path, e: Path, a: Path, b: Path)
    requires Disjoint(d, e) && d <= a && e <= b
    ensures Disjoint(a, b)
  {
    if a <= b {
      PrefixTransitive(d, a, b);
      PrefixesCompare(d, e, b);
      PrefixesCompare(e, d, b);
    } else if b <= a {
      PrefixTransitive(e, b, a);
      PrefixesCompare(d, e, a);
      PrefixesCompare(e, d, a);
    }
  }

  lemma {:induction false} MountedHostsIn(root: Node, m: Mount, da: set<Path>, db: set<Path>)
    requires HostsIn(root, da) && HostsIn(m.node, db) && Mountable(root, m) && HasParent(root, m.at)
    ensures HostsIn(Insert(root, m.at, m.node), da + db)
  {
    hide View, Insert;
    var root2 := Insert(root, m.at, m.node);
    forall x | View(root2, x).Some? && HostOf(View(root2, x).value).Some?
      ensures exists d :: d in da + db && d <= HostOf(View(root2, x).value).value
    {
      ViewMounted(root, m, x);
      if m.at <= x {
        var d :| d in db && d <= HostOf(View(m.node, x[|m.at|..]).value).value;
        assert d in da + db;
      } else {
        var d :| d in da && d <= HostOf(View(root, x).value).value;
        assert d in da + db;
      }
    }
  }

  /** Host paths are not in step where a host directory is mounted twice, as the library is. */
  lemma {:induction false} MountedTwiceIsNotAligned(root: Node, a: Path, b: Path, h: Path)
    requires a != b && View(root, a) == View(root, b) == Some(DirInfo(Some(h)))
    ensures !AllAligned(root)
  {
    hide View, AllAligned;
    if AllAligned(root) {
      OneDirectory(root, a, b, h);
    }
  }

  // ----- the layout

  /** The tree after a mount, if there is room for it. */
  function MountOn(root: Node, m: Mount): Node {
    if HasParent(root, m.at) then Insert(root, m.at, m.node) else root
  }

  /** What is mounted, or has no host path. */
  function MountPoints(base: Path): set<Option<Path>> {
    {None, Some(base + ["AppSandbox"]), Some(base + ["Documents"]), Some(base + ["Library"]), Some(base + ["tmp"])}
  }

  /** The tree mirrors the host; nothing is left over unless there is in the sandbox. */
  ghost predicate Sound(n: Node, host: Host, base: Path) {
    Mirror(n, host) && AllAttached(n, MountPoints(base)) && (!HasMore(host, base + ["AppSandbox"]) ==> Full(n, host))
  }

  /** Moreover no host directory is mounted twice. */
  ghost predicate Good(n: Node, host: Host, base: Path) {
    Sound(n, host, base) && AllAligned(n)
  }

  /** Mounting keeps the tree sound. */
  lemma {:induction false} SoundStep(root: Node, m: Mount, host: Host, base: Path)
    requires Sound(root, host, base) && Mountable(root, m) && Sound(m.node, host, base)
    requires m.node.Directory? && m.node.writeable in MountPoints(base)
    ensures Sound(MountOn(root, m), host, base)
    ensures forall s {:trigger View(MountOn(root, m), s)} ::
      View(MountOn(root, m), s) == if m.at <= s then View(m.node, s[|m.at|..]) else View(root, s)
  {
    hide Mirror, View, Insert, Full, AllAttached, MountPoints;
    MountingKeepsMirror(root, m, host);
    MountingKeepsAttached(root, m, MountPoints(base));
    if !HasMore(host, base + ["AppSandbox"]) {
      MountingKeepsFull(root, m, host);
    }
    forall s
      ensures View(MountOn(root, m), s) == if m.at <= s then View(m.node, s[|m.at|..]) else View(root, s)
    {
      ViewMounted(root, m, s);
    }
  }

  /** So it does host paths in step, as long as the host directories are disjoint. */
  lemma {:induction false} MountStep(root: Node, m: Mount, host: Host, base: Path, own: set<Path>, dirs: set<Path>)
    requires Good(root, host, base) && Mountable(root, m) && HostsIn(root, own)
    requires Good(m.node, host, base) && HostsIn(m.node, dirs) && m.node.Directory?
      && m.node.writeable in MountPoints(base)
    requires forall d, e :: d in own && e in dirs ==> Disjoint(d, e)
    ensures Good(MountOn(root, m), host, base) && HostsIn(MountOn(root, m), own + dirs)
    ensures forall s {:trigger View(MountOn(root, m), s)} ::
      View(MountOn(root, m), s) == if m.at <= s then View(m.node, s[|m.at|..]) else View(root, s)
  {
    hide Sound, HostsIn, View, Insert, Apart, AllAligned, MountPoints;
    DisjointAreApart(root, m.node, own, dirs);
    SoundStep(root, m, host, base);
    MountingKeepsAligned(root, m);
    MountedHostsIn(root, m, own, dirs);
  }

  const UUID := "00000000-0000-0000-0000-000000000000"
  const HOME: Path := ["var", "mobile", "Applications", UUID]
  /** Where the library is mounted a second time. */
  const LIBRARY: Path := ["var", "mobile", "Library"]

  /** Read-only directories down to the one of the applications. */
  function Skeleton(): Node {
    Directory(map["mobile" := Directory(map["Applications" := Directory(map[], None)], None)], None)
  }

  /** What the tree is built from: the application's host directory, its bundle and the bundled libraries. */
  datatype Parts = Parts(base: Path, bundleName: string, bundle: Node, bundleDirs: set<Path>, libraries: Node)

  /** A tree without anything on the host that could be written. */
  ghost predicate Hostless(n: Node) {
    n.Directory? && forall x {:trigger View(n, x)} :: View(n, x).Some? ==> IsHostless(View(n, x).value)
  }

  ghost predicate NoWriteableDirs(n: Node) {
    forall x {:trigger View(n, x)} :: View(n, x).Some? && View(n, x).value.DirInfo? ==> View(n, x).value.writeable.None?
  }

  predicate IsHostless(i: Info) {
    HostOf(i).None? && (i.FileInfo? ==> !i.canWrite)
  }

  /**
   The host directories are there, that of the root has just been emptied; what the others hold, and that
   of the sandbox, is left from earlier runs. The bundle lies elsewhere.
   */
  ghost predicate PartsOk(host: Host, p: Parts) {
    && Closed(host) && DirsThere(host, p.base) && !HasMore(host, p.base + ["root"])
    && p.bundleName !in ["Documents", "Library", "tmp"]
    && Mirror(p.bundle, host) && AllAligned(p.bundle) && HostsIn(p.bundle, p.bundleDirs)
    && (forall d :: d in p.bundleDirs ==> Disjoint(d, p.base))
    && NoWriteableDirs(p.bundle)
    && Hostless(p.libraries)
  }

  predicate DirsThere(host: Host, base: Path) {
    && IsDir(host, base + ["root"]) && IsDir(host, base + ["AppSandbox"])
    && IsDir(host, base + ["Documents"]) && IsDir(host, base + ["Library"]) && IsDir(host, base + ["tmp"])
  }

  /** The sandbox: a host directory that is mounted without being read. */
  function Unread(h: Path): Node {
    Directory(map[], Some(h))
  }

  /** What is in the home directory. */
  function HomeNames(p: Parts): set<string> {
    {p.bundleName} + {"Documents", "Library", "tmp"}
  }

  /** The home directory with the bundle and the directories that are read. */
  function WithHome(host: Host, p: Parts, r: Node): Node
    requires DirsThere(host, p.base)
  {
    var r1 := MountOn(r, Mount(HOME + [p.bundleName], p.bundle));
    var r2 := MountOn(r1, Mount(HOME + ["Documents"], FromHostDir(host, p.base + ["Documents"], true)));
    var r3 := MountOn(r2, Mount(HOME + ["Library"], FromHostDir(host, p.base + ["Library"], true)));
    MountOn(r3, Mount(HOME + ["tmp"], FromHostDir(host, p.base + ["tmp"], true)))
  }

  /** The tree but for the second mount of the library. */
  function OneLibraryTree(host: Host, p: Parts): Node
    requires DirsThere(host, p.base)
  {
    var r0 := FromHostDir(host, p.base + ["root"], true);
    var r1 := MountOn(r0, Mount(["var"], Skeleton()));
    var r2 := MountOn(r1, Mount(HOME, Unread(p.base + ["AppSandbox"])));
    MountOn(WithHome(host, p, r2), Mount(["usr"], Directory(map["lib" := p.libraries], None)))
  }

  /** `Fs::new` for a launch that is not read-only: the host's `Library` is mounted twice. */
  function StartTree(host: Host, p: Parts): Node
    requires DirsThere(host, p.base)
  {
    MountOn(OneLibraryTree(host, p), Mount(LIBRARY, FromHostDir(host, p.base + ["Library"], true)))
  }

  lemma {:induction false} WrappedView(name: string, c: Node, x: Path)
    ensures View(Directory(map[name := c], None), x) ==
      if x == [] then Some(DirInfo(None)) else if x[0] == name then View(c, x[1..]) else None
  {
  }

  lemma {:induction false} WrappedHostless(name: string, c: Node)
    requires Hostless(c)
    ensures Hostless(Directory(map[name := c], None))
  {
    var n := Directory(map[name := c], None);
    forall x | View(n, x).Some?
      ensures IsHostless(View(n, x).value)
    {
      WrappedView(name, c, x);
    }
  }

  /** Without writeable directories nothing can be left over or mounted. */
  lemma {:induction false} ReadOnlyIsGood(n: Node, host: Host, base: Path)
    requires NoWriteableDirs(n) && Mirror(n, host) && AllAligned(n)
    ensures Good(n, host, base) && n.Directory? && n.writeable.None?
  {
    assert View(n, []) == Some(DirInfo(n.writeable));
    hide View, Mirror, HasMore, MountPoints;
    forall q
      ensures Complete(n, host, q) && Attached(n, MountPoints(base), q)
    {
    }
    FullIfComplete(n, host);
    AllAttachedIf(n, MountPoints(base));
  }

  lemma {:induction false} HostlessIsGood(n: Node, host: Host, base: Path)
    requires Hostless(n) && Closed(host)
    ensures Good(n, host, base) && HostsIn(n, {}) && n.writeable.None?
  {
    assert Mirror(n, host) && AllAligned(n) && NoWriteableDirs(n) by { hide View; }
    hide View, Mirror, AllAligned;
    ReadOnlyIsGood(n, host, base);
  }

  lemma {:induction false} SkeletonHostless()
    ensures Hostless(Skeleton())
    ensures View(Skeleton(), ["mobile", "Applications"]) == Some(DirInfo(None))
    ensures View(Skeleton(), ["mobile", "Applications", UUID]) == None
    ensures View(Skeleton(), ["mobile"]) == Some(DirInfo(None)) && View(Skeleton(), ["mobile", "Library"]) == None
  {
    var apps := Directory(map[], None);
    var mobile := Directory(map["Applications" := apps], None);
    assert Hostless(apps);
    WrappedHostless("Applications", apps);
    WrappedHostless("mobile", mobile);
    var x: Path, y: Path := ["mobile", "Applications"], ["mobile", "Applications", UUID];
    WrappedView("mobile", mobile, x);
    WrappedView("mobile", mobile, y);
    assert x[1..] == ["Applications"] && y[1..] == ["Applications", UUID];
    WrappedView("Applications", apps, ["Applications"]);
    WrappedView("Applications", apps, ["Applications", UUID]);
    assert ["Applications"][1..] == [] && ["Applications", UUID][1..] == [UUID];
    assert View(apps, [UUID]) == None;
    var z: Path, l: Path := ["mobile"], ["mobile", "Library"];
    WrappedView("mobile", mobile, z);
    WrappedView("mobile", mobile, l);
    assert z[1..] == [] && l[1..] == ["Library"];
    assert "Library"[0] != "Applications"[0];
    WrappedView("Applications", apps, ["Library"]);
  }

  lemma {:induction false} UnreadMirrors(host: Host, base: Path)
    requires Closed(host) && IsDir(host, base + ["AppSandbox"])
    ensures var h := base + ["AppSandbox"];
      && Good(Unread(h), host, base) && HostsIn(Unread(h), {h})
      && forall x {:trigger View(Unread(h), x)} ::
        View(Unread(h), x) == if x == [] then Some(DirInfo(Some(h))) else None
  {
    var h := base + ["AppSandbox"];
    var n := Unread(h);
    assert forall x {:trigger View(n, x)} :: View(n, x) == if x == [] then Some(DirInfo(Some(h))) else None;
    hide View, Unread;
    forall q, r
      ensures Aligned(n, q, r)
    {
      assert q == [] && r == [] ==> r[|q|..] == h[|h|..];
    }
    forall q
      ensures Attached(n, MountPoints(base), q)
    {
    }
    if !HasMore(host, h) {
      forall q
        ensures Complete(n, host, q)
      {
        assert forall name :: h <= h + [name] && h + [name] != h;
      }
      FullIfComplete(n, host);
    }
  }

  lemma {:induction false} ReadHosts(host: Host, h: Path, base: Path)
    requires Closed(host) && IsDir(host, h)
    ensures Good(FromHostDir(host, h, true), host, base) && HostsIn(FromHostDir(host, h, true), {h})
    ensures FromHostDir(host, h, true).Directory? && FromHostDir(host, h, true).writeable == Some(h)
  {
    ReadMirrors(host, h, true);
    ReadIsFull(host, h);
    ReadIsAttached(host, h, MountPoints(base));
    var n := FromHostDir(host, h, true);
    assert n.Directory? && n.writeable == Some(h);
    hide View, FromHostDir, Mirror, Full, AllAttached, MountPoints;
    forall x | View(n, x).Some? && HostOf(View(n, x).value).Some?
      ensures h <= HostOf(View(n, x).value).value
    {
      ViewFromHost(host, h, true, x);
    }
    assert h in {h};
  }

  function InHome(name: string, x: Path): Path {
    HOME + [name] + x
  }

  /** The home directory, with the host directory `box`, has just the children `names`; more is not mounted yet. */
  ghost predicate HomeHas(r: Node, box: Path, names: map<string, Node>) {
    && View(r, HOME) == Some(DirInfo(Some(box)))
    && (forall name, x {:trigger InHome(name, x)} ::
      View(r, InHome(name, x)) == if name in names then View(names[name], x) else None)
    && View(r, ["usr"]).None? && View(r, []).Some? && View(r, []).value.DirInfo?
    && View(r, LIBRARY).None? && View(r, Parent(LIBRARY)) == Some(DirInfo(None))
  }

  /** The host directories in use: those in `base` with the names `taken`, and those outside. */
  ghost predicate InUse(own: set<Path>, base: Path, taken: set<string>, outside: set<Path>) {
    forall d :: d in own ==> d in outside || exists name :: name in taken && d == base + [name]
  }

  /** Another directory in `base` is disjoint from those in use. */
  lemma {:induction false} OneMoreInUse(own: set<Path>, base: Path, taken: set<string>, outside: set<Path>,
      name: string)
    requires InUse(own, base, taken, outside) && name !in taken && forall d :: d in outside ==> Disjoint(d, base)
    ensures forall d :: d in own ==> Disjoint(d, base + [name])
    ensures InUse(own + {base + [name]}, base, taken + {name}, outside)
  {
    forall d | d in own
      ensures Disjoint(d, base + [name])
    {
      if d in outside {
        UnderDisjoint(d, base, d, base + [name]);
      } else {
        var other :| other in taken && d == base + [other];
        assert d[|base|] == other && (base + [name])[|base|] == name;
      }
    }
  }

  lemma {:induction false} OutsideIsFree(own: set<Path>, base: Path, taken: set<string>, outside: set<Path>)
    requires InUse(own, base, taken, {}) && forall d :: d in outside ==> Disjoint(d, base)
    ensures forall d, e :: d in own && e in outside ==> Disjoint(d, e)
    ensures InUse(own + outside, base, taken, outside)
  {
    forall d, e | d in own && e in outside
      ensures Disjoint(d, e)
    {
      var name :| name in taken && d == base + [name];
      UnderDisjoint(e, base, e, d);
    }
  }

  /** The tree while the home directory is being filled. */
  ghost predicate Filling(host: Host, p: Parts, r: Node, own: set<Path>, taken: set<string>, names: map<string, Node>,
      outside: set<Path>) {
    Good(r, host, p.base) && HomeHas(r, p.base + ["AppSandbox"], names) && HostsIn(r, own)
      && InUse(own, p.base, taken, outside)
  }

  lemma {:induction false} HomeStep(r: Node, name: string, n: Node, names: map<string, Node>, host: Host, base: Path,
      own: set<Path>, dirs: set<Path>)
    requires Good(r, host, base) && HomeHas(r, base + ["AppSandbox"], names) && name !in names && HostsIn(r, own)
    requires Good(n, host, base) && HostsIn(n, dirs) && n.Directory? && n.writeable in MountPoints(base)
    requires forall d, e :: d in own && e in dirs ==> Disjoint(d, e)
    ensures var r2 := MountOn(r, Mount(HOME + [name], n));
      Good(r2, host, base) && HomeHas(r2, base + ["AppSandbox"], names[name := n]) && HostsIn(r2, own + dirs)
  {
    hide Good, View, HostsIn, MountOn, MountPoints;
    var m := Mount(HOME + [name], n);
    ParentOf(HOME, name);
    assert InHome(name, []) == HOME + [name];
    assert Mountable(r, m);
    MountStep(r, m, host, base, own, dirs);
    var r2 := MountOn(r, m);
    assert !(m.at <= HOME) && !(m.at <= ["usr"]) && !(m.at <= []);
    forall other, x
      ensures View(r2, InHome(other, x)) == if other == name then View(n, x) else View(r, InHome(other, x))
    {
      assert InHome(other, x)[4] == other && m.at[4] == name;
      if other == name {
        assert m.at <= InHome(other, x) && InHome(other, x)[|m.at|..] == x;
      }
    }
    assert InHome(name, []) == HOME + [name];
  }

  /** Reading one more directory into the home directory. */
  lemma {:induction false} FillStep(host: Host, p: Parts, r: Node, own: set<Path>, taken: set<string>,
      names: map<string, Node>, name: string)
    requires Filling(host, p, r, own, taken, names, p.bundleDirs) && Closed(host) && IsDir(host, p.base + [name])
    requires name !in taken && name !in names && name in ["Documents", "Library", "tmp"]
    requires forall d :: d in p.bundleDirs ==> Disjoint(d, p.base)
    ensures Filling(host, p, MountOn(r, Mount(HOME + [name], FromHostDir(host, p.base + [name], true))),
      own + {p.base + [name]}, taken + {name}, names[name := FromHostDir(host, p.base + [name], true)], p.bundleDirs)
  {
    assert Some(p.base + [name]) in MountPoints(p.base);
    hide Good, View, HostsIn, MountOn, FromHostDir, HomeHas, InUse, MountPoints;
    OneMoreInUse(own, p.base, taken, p.bundleDirs, name);
    ReadHosts(host, p.base + [name], p.base);
    HomeStep(r, name, FromHostDir(host, p.base + [name], true), names, host, p.base, own, {p.base + [name]});
  }

  lemma {:induction false} RootRead(host: Host, h: Path)
    requires Closed(host) && IsDir(host, h) && !HasMore(host, h)
    ensures forall s {:trigger View(FromHostDir(host, h, true), s)} ::
      View(FromHostDir(host, h, true), s) == if s == [] then Some(DirInfo(Some(h))) else None
  {
    forall s
      ensures View(FromHostDir(host, h, true), s) == if s == [] then Some(DirInfo(Some(h))) else None
    {
      ViewFromHost(host, h, true, s);
      if s == [] {
        assert h + s == h;
      } else {
        assert h <= h + s && h + s != h;
      }
    }
  }

  /** The root with the read-only directories on the way to the home directory. */
  lemma {:induction false} SkeletonStep(host: Host, p: Parts)
    requires PartsOk(host, p)
    ensures var r1 := MountOn(FromHostDir(host, p.base + ["root"], true), Mount(["var"], Skeleton()));
      && Good(r1, host, p.base) && HostsIn(r1, {p.base + ["root"]}) && View(r1, Parent(HOME)) == Some(DirInfo(None))
      && View(r1, HOME) == None && View(r1, LIBRARY) == None && View(r1, Parent(LIBRARY)) == Some(DirInfo(None))
      && (forall s: Path {:trigger View(r1, s)} :: !(["var"] <= s) && s != [] ==> View(r1, s) == None)
      && View(r1, []).Some? && View(r1, []).value.DirInfo?
  {
    var h := p.base + ["root"];
    var r0 := FromHostDir(host, h, true);
    RootRead(host, h);
    ReadHosts(host, h, p.base);
    SkeletonHostless();
    HostlessIsGood(Skeleton(), host, p.base);
    hide Good, View, HostsIn, MountOn, FromHostDir, Skeleton, PartsOk, Hostless;
    var m := Mount(["var"], Skeleton());
    assert Parent(m.at) == [];
    MountStep(r0, m, host, p.base, {h}, {});
    assert {h} + {} == {h};
    assert HOME[1..] == ["mobile", "Applications", UUID] && Parent(HOME)[1..] == ["mobile", "Applications"];
    assert m.at <= HOME && m.at <= Parent(HOME);
    assert LIBRARY[1..] == ["mobile", "Library"] && Parent(LIBRARY)[1..] == ["mobile"];
    assert m.at <= LIBRARY && m.at <= Parent(LIBRARY);
  }

  /** The home directory as a leaf. */
  lemma {:induction false} HomeIsEmpty(r1: Node, r2: Node, box: Path)
    requires forall s: Path {:trigger View(r1, s)} :: !(["var"] <= s) && s != [] ==> View(r1, s) == None
    requires View(r1, []).Some? && View(r1, []).value.DirInfo?
    requires View(r1, LIBRARY) == None && View(r1, Parent(LIBRARY)) == Some(DirInfo(None))
    requires forall s {:trigger View(r2, s)} ::
      View(r2, s) == if HOME <= s then View(Unread(box), s[|HOME|..]) else View(r1, s)
    requires forall x {:trigger View(Unread(box), x)} ::
      View(Unread(box), x) == if x == [] then Some(DirInfo(Some(box))) else None
    ensures HomeHas(r2, box, map[])
  {
    hide View, Unread;
    assert HOME[|HOME|..] == [];
    var v: Path, u: Path := ["var"], ["usr"];
    assert v[0][0] != u[0][0];
    assert !(v <= u) && !(HOME <= ["usr"]) && !(HOME <= []);
    forall name, x
      ensures View(r2, InHome(name, x)).None?
    {
      assert HOME <= InHome(name, x) && InHome(name, x)[|HOME|..] == [name] + x;
    }
  }

  lemma {:induction false} RootAndBox(base: Path)
    ensures InUse({base + ["root"]}, base, {"root"}, {})
    ensures forall d :: d in {base + ["root"]} ==> Disjoint(d, base + ["AppSandbox"])
    ensures InUse({base + ["root"]} + {base + ["AppSandbox"]}, base, {"root"} + {"AppSandbox"}, {})
  {
    var own := {base + ["root"]};
    assert InUse(own, base, {"root"}, {}) by { assert "root" in {"root"}; }
    assert "root"[0] != "AppSandbox"[0];
    OneMoreInUse(own, base, {"root"}, {}, "AppSandbox");
  }

  lemma {:induction false} BoxStep(host: Host, base: Path, r1: Node)
    requires Closed(host) && IsDir(host, base + ["AppSandbox"]) && Good(r1, host, base)
      && HostsIn(r1, {base + ["root"]})
    requires View(r1, Parent(HOME)) == Some(DirInfo(None)) && View(r1, HOME) == None && View(r1, []).Some?
      && View(r1, []).value.DirInfo?
    requires View(r1, LIBRARY) == None && View(r1, Parent(LIBRARY)) == Some(DirInfo(None))
    requires forall s: Path {:trigger View(r1, s)} :: !(["var"] <= s) && s != [] ==> View(r1, s) == None
    ensures var r2 := MountOn(r1, Mount(HOME, Unread(base + ["AppSandbox"])));
      Good(r2, host, base) && HomeHas(r2, base + ["AppSandbox"], map[])
        && HostsIn(r2, {base + ["root"]} + {base + ["AppSandbox"]})
  {
    var box := base + ["AppSandbox"];
    UnreadMirrors(host, base);
    RootAndBox(base);
    assert Unread(box).Directory? && Unread(box).writeable in MountPoints(base);
    hide Good, View, MountPoints, HostsIn, MountOn, InUse, Unread, HomeHas;
    var m := Mount(HOME, Unread(box));
    MountStep(r1, m, host, base, {base + ["root"]}, {box});
    HomeIsEmpty(r1, MountOn(r1, m), box);
  }

  /** Reading three more directories into the home directory. */
  lemma {:induction false} FillThree(host: Host, p: Parts, r: Node, own: set<Path>, taken: set<string>,
      names: map<string, Node>, a: string, b: string, c: string)
    returns (own3: set<Path>, taken3: set<string>, names3: map<string, Node>)
    requires Filling(host, p, r, own, taken, names, p.bundleDirs) && Closed(host) && a != b && a != c && b != c
    requires IsDir(host, p.base + [a]) && IsDir(host, p.base + [b]) && IsDir(host, p.base + [c])
    requires forall x :: x in [a, b, c] ==> x in ["Documents", "Library", "tmp"]
    requires a !in taken && b !in taken && c !in taken && a !in names && b !in names && c !in names
    requires forall d :: d in p.bundleDirs ==> Disjoint(d, p.base)
    ensures var r1 := MountOn(r, Mount(HOME + [a], FromHostDir(host, p.base + [a], true)));
      var r2 := MountOn(r1, Mount(HOME + [b], FromHostDir(host, p.base + [b], true)));
      var r3 := MountOn(r2, Mount(HOME + [c], FromHostDir(host, p.base + [c], true)));
      Filling(host, p, r3, own3, taken3, names3, p.bundleDirs)
    ensures names3.Keys == names.Keys + {a, b, c} && names3[b] == FromHostDir(host, p.base + [b], true)
  {
    hide Good, View, HostsIn, MountOn, FromHostDir, HomeHas, InUse, Filling, IsDir, Closed;
    assert a in [a, b, c] && b in [a, b, c] && c in [a, b, c];
    FillStep(host, p, r, own, taken, names, a);
    var r1 := MountOn(r, Mount(HOME + [a], FromHostDir(host, p.base + [a], true)));
    own3, taken3, names3 := own + {p.base + [a]}, taken + {a}, names[a := FromHostDir(host, p.base + [a], true)];
    FillStep(host, p, r1, own3, taken3, names3, b);
    var r2 := MountOn(r1, Mount(HOME + [b], FromHostDir(host, p.base + [b], true)));
    own3, taken3, names3 := own3 + {p.base + [b]}, taken3 + {b}, names3[b := FromHostDir(host, p.base + [b], true)];
    FillStep(host, p, r2, own3, taken3, names3, c);
    own3, taken3, names3 := own3 + {p.base + [c]}, taken3 + {c}, names3[c := FromHostDir(host, p.base + [c], true)];
  }

  lemma {:induction false} DifferentNames(name: string, taken: set<string>)
    requires taken == {"root"} + {"AppSandbox"} && name in ["Documents", "Library", "tmp"]
    ensures name !in taken
  {
    assert "Documents"[0] == 'D' && "Library"[0] == 'L' && "tmp"[0] == 't' && "root"[0] == 'r'
      && "AppSandbox"[0] == 'A';
  }

  lemma {:induction false} BundleStep(host: Host, p: Parts, r: Node)
    requires Mirror(p.bundle, host) && AllAligned(p.bundle) && NoWriteableDirs(p.bundle)
      && HostsIn(p.bundle, p.bundleDirs)
    requires forall d :: d in p.bundleDirs ==> Disjoint(d, p.base)
    requires Good(r, host, p.base) && HomeHas(r, p.base + ["AppSandbox"], map[])
      && HostsIn(r, {p.base + ["root"]} + {p.base + ["AppSandbox"]})
    ensures Filling(host, p, MountOn(r, Mount(HOME + [p.bundleName], p.bundle)),
      {p.base + ["root"]} + {p.base + ["AppSandbox"]} + p.bundleDirs, {"root"} + {"AppSandbox"},
      map[p.bundleName := p.bundle], p.bundleDirs)
  {
    RootAndBox(p.base);
    var own := {p.base + ["root"]} + {p.base + ["AppSandbox"]};
    OutsideIsFree(own, p.base, {"root"} + {"AppSandbox"}, p.bundleDirs);
    ReadOnlyIsGood(p.bundle, host, p.base);
    hide Good, View, HostsIn, MountOn, HomeHas, InUse, Disjoint, Mirror;
    HomeStep(r, p.bundleName, p.bundle, map[], host, p.base, own, p.bundleDirs);
  }

  lemma {:induction false} HomeFilled(host: Host, p: Parts, r: Node)
    returns (own3: set<Path>, taken3: set<string>, names3: map<string, Node>)
    requires PartsOk(host, p)
    requires Good(r, host, p.base) && HomeHas(r, p.base + ["AppSandbox"], map[])
      && HostsIn(r, {p.base + ["root"]} + {p.base + ["AppSandbox"]})
    ensures Filling(host, p, WithHome(host, p, r), own3, taken3, names3, p.bundleDirs)
    ensures names3.Keys == HomeNames(p) && names3["Library"] == FromHostDir(host, p.base + ["Library"], true)
  {
    BundleStep(host, p, r);
    var own := {p.base + ["root"]} + {p.base + ["AppSandbox"]} + p.bundleDirs;
    var taken: set<string> := {"root"} + {"AppSandbox"};
    var r1 := MountOn(r, Mount(HOME + [p.bundleName], p.bundle));
    DifferentNames("Documents", taken);
    DifferentNames("Library", taken);
    DifferentNames("tmp", taken);
    assert "Documents"[0] == 'D' && "Library"[0] == 'L' && "tmp"[0] == 't';
    hide Good, Mirror, View, HostsIn, MountOn, HomeHas, Filling, Disjoint, IsDir, Closed, HasMore;
    own3, taken3, names3 := FillThree(host, p, r1, own, taken, map[p.bundleName := p.bundle], "Documents",
      "Library", "tmp");
    var r2 := MountOn(r1, Mount(HOME + ["Documents"], FromHostDir(host, p.base + ["Documents"], true)));
    var r3 := MountOn(r2, Mount(HOME + ["Library"], FromHostDir(host, p.base + ["Library"], true)));
    var r4 := MountOn(r3, Mount(HOME + ["tmp"], FromHostDir(host, p.base + ["tmp"], true)));
    assert WithHome(host, p, r) == r4;
  }

  /** The tree but for the second mount mirrors the host in step; there is room for that mount. */
  lemma {:induction false} OneLibraryMirrors(host: Host, p: Parts)
    requires PartsOk(host, p)
    ensures var r := OneLibraryTree(host, p);
      && Good(r, host, p.base) && View(r, LIBRARY) == None && View(r, Parent(LIBRARY)) == Some(DirInfo(None))
      && View(r, HOME) == Some(DirInfo(Some(p.base + ["AppSandbox"])))
      && (forall x {:trigger InHome("Library", x)} ::
        View(r, InHome("Library", x)) == View(FromHostDir(host, p.base + ["Library"], true), x))
      && (forall name {:trigger InHome(name, [])} :: name !in HomeNames(p) ==> View(r, InHome(name, [])).None?)
  {
    SkeletonStep(host, p);
    var r1 := MountOn(FromHostDir(host, p.base + ["root"], true), Mount(["var"], Skeleton()));
    BoxStep(host, p.base, r1);
    var r2 := MountOn(r1, Mount(HOME, Unread(p.base + ["AppSandbox"])));
    var own, taken, names := HomeFilled(host, p, r2);
    var r3 := WithHome(host, p, r2);
    WrappedHostless("lib", p.libraries);
    var usr := Directory(map["lib" := p.libraries], None);
    HostlessIsGood(usr, host, p.base);
    hide Good, View, HostsIn, MountOn, FromHostDir, Skeleton, WithHome, Hostless, PartsOk;
    assert Parent(["usr"]) == [];
    MountStep(r3, Mount(["usr"], usr), host, p.base, own, {});
    var v: Path, u: Path := ["var"], ["usr"];
    assert v[0][0] != u[0][0];
    assert LIBRARY[0] == "var" && HOME[0] == "var" && Parent(LIBRARY)[0] == "var";
    forall x
      ensures View(OneLibraryTree(host, p), InHome("Library", x)) ==
        View(FromHostDir(host, p.base + ["Library"], true), x)
    {
      assert InHome("Library", x)[0] == "var";
    }
    forall name | name !in HomeNames(p)
      ensures View(OneLibraryTree(host, p), InHome(name, [])).None?
    {
      assert InHome(name, [])[0] == "var";
    }
  }

  lemma {:induction false} LibraryElsewhere()
    ensures !(LIBRARY <= HOME) && forall name, x :: !(LIBRARY <= InHome(name, x))
  {
    assert "Library"[0] != "Applications"[0];
    assert HOME[2] == "Applications" && LIBRARY[2] == "Library";
    assert forall name, x :: InHome(name, x)[2] == "Applications";
  }

  /** Mounting the library once more. */
  lemma {:induction false} LibraryStep(host: Host, p: Parts)
    requires PartsOk(host, p)
    ensures var h := p.base + ["Library"]; var n := FromHostDir(host, h, true); var m := Mount(LIBRARY, n);
      && Mountable(OneLibraryTree(host, p), m) && Sound(n, host, p.base) && n.Directory? && n.writeable == Some(h)
      && n.writeable in MountPoints(p.base)
  {
    OneLibraryMirrors(host, p);
    ReadHosts(host, p.base + ["Library"], p.base);
  }

  /** What is in the tree at the start. */
  lemma {:induction false} StartViews(host: Host, p: Parts, s: Path)
    requires PartsOk(host, p)
    ensures View(StartTree(host, p), s) ==
      if LIBRARY <= s then View(FromHostDir(host, p.base + ["Library"], true), s[|LIBRARY|..])
      else View(OneLibraryTree(host, p), s)
  {
    LibraryStep(host, p);
    hide View, FromHostDir, OneLibraryTree, PartsOk, MountPoints, Insert;
    ViewMounted(OneLibraryTree(host, p), Mount(LIBRARY, FromHostDir(host, p.base + ["Library"], true)), s);
  }

  /**
   The tree of a launch mirrors the host at the start, whatever earlier runs left in the sandbox and the
   other directories, although its library is mounted twice; and unless they left something in the sandbox,
   there is a node for everything in the host's directories. All but what is mounted has the host path of its
   directory with its own name.
   */
  lemma {:induction false} StartMirrors(host: Host, p: Parts)
    requires PartsOk(host, p)
    ensures var r := StartTree(host, p);
      && Mirror(r, host) && AllAttached(r, MountPoints(p.base))
      && (!HasMore(host, p.base + ["AppSandbox"]) ==> Full(r, host))
  {
    OneLibraryMirrors(host, p);
    LibraryStep(host, p);
    hide Mirror, View, FromHostDir, OneLibraryTree, Full, AllAttached, PartsOk, MountOn, MountPoints;
    SoundStep(OneLibraryTree(host, p), Mount(LIBRARY, FromHostDir(host, p.base + ["Library"], true)), host, p.base);
  }

  /** The home directory and both mounts of the library. */
  lemma {:induction false} StartHas(host: Host, p: Parts)
    requires PartsOk(host, p)
    ensures View(StartTree(host, p), HOME) == Some(DirInfo(Some(p.base + ["AppSandbox"])))
    ensures forall x {:trigger InHome("Library", x)} ::
      View(StartTree(host, p), InHome("Library", x)) == View(FromHostDir(host, p.base + ["Library"], true), x)
    ensures forall name {:trigger InHome(name, [])} ::
      name !in HomeNames(p) ==> View(StartTree(host, p), InHome(name, [])).None?
    ensures forall x {:trigger LIBRARY + x} ::
      View(StartTree(host, p), LIBRARY + x) == View(FromHostDir(host, p.base + ["Library"], true), x)
  {
    OneLibraryMirrors(host, p);
    hide View, FromHostDir, OneLibraryTree, PartsOk, StartTree, Good;
    LibraryElsewhere();
    StartViews(host, p, HOME);
    forall x
      ensures View(StartTree(host, p), InHome("Library", x)) ==
        View(FromHostDir(host, p.base + ["Library"], true), x)
    {
      StartViews(host, p, InHome("Library", x));
    }
    forall name | name !in HomeNames(p)
      ensures View(StartTree(host, p), InHome(name, [])).None?
    {
      StartViews(host, p, InHome(name, []));
    }
    forall x
      ensures View(StartTree(host, p), LIBRARY + x) == View(FromHostDir(host, p.base + ["Library"], true), x)
    {
      StartViews(host, p, LIBRARY + x);
      assert LIBRARY <= LIBRARY + x && (LIBRARY + x)[|LIBRARY|..] == x;
    }
  }
}
