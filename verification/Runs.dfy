/**
 What can fail in a run of the file system (src/fs.rs): from the tree that a launch builds, over any
 history. The library is mounted twice, so that every run can go wrong; and when it does is told exactly.
 */
module Runs {
  import opened Common
  import opened FileTree
  import opened NodeLookup
  import opened HostMirror
  import opened Vfs
  import opened NoLeftovers
  import opened DisjointMounts
  import opened Launch

  // ----- every run

  /** Over any fair history of a run, with leftovers or without, the mirror holds, and so on. */
  lemma {:induction false} RunKeepsMirror(host: Host, p: Parts, changes: seq<Change>, root2: Node, host2: Host,
      next: Change)
    requires PartsOk(host, p) && History(StartTree(host, p), host, changes, root2, host2)
    ensures Mirror(root2, host2) && AllAttached(root2, MountPoints(p.base))
    ensures var o := Apply(root2, host2, next);
      Fair(root2, host2, next) <==> !o.Panic? && (o.Changed? ==> forall q :: !Unusable(o.root, o.host, q))
  {
    StartMirrors(host, p);
    hide Mirror, AllAttached, PartsOk, History, StartTree, Fair, Apply, Unusable;
    HistoryKeepsMirror(StartTree(host, p), host, changes, root2, host2, next);
    HistoryKeepsAttached(StartTree(host, p), host, changes, root2, host2, MountPoints(p.base));
    FairIffNothingFails(root2, host2, next);
  }

  /**
   On a first launch the host has nothing left over. After any changes that touched nothing shared, the next
   one fails, or makes some node fail, exactly if another node shares what it adds, removes or renames.
   */
  lemma {:induction false} FirstRunFailsIffShared(host: Host, p: Parts, changes: seq<Change>, root2: Node,
      host2: Host, next: Change)
    requires PartsOk(host, p) && !HasMore(host, p.base + ["AppSandbox"])
    requires PrivateHistory(StartTree(host, p), host, changes, root2, host2)
    ensures Mirror(root2, host2) && Full(root2, host2)
    ensures var o := Apply(root2, host2, next);
      Private(root2, host2, next) <==> !o.Panic? && (o.Changed? ==> forall q :: !Unusable(o.root, o.host, q))
  {
    StartMirrors(host, p);
    hide Mirror, Full, PartsOk, PrivateHistory, StartTree, Private, Apply, Unusable;
    NothingFailsIffPrivate(StartTree(host, p), host, changes, root2, host2, next);
  }

  // ----- such runs exist

  /** A host with an empty sandbox and a file in the library. */
  function CleanHost(): Host {
    map[[] := DirEntry, ["root"] := DirEntry, ["AppSandbox"] := DirEntry, ["Documents"] := DirEntry,
        ["Library"] := DirEntry, ["tmp"] := DirEntry, ["Library", "x"] := FileEntry(0)]
  }

  const WAPI: Path := ["AppSandbox", ".wapi"]

  /** A host on which moreover an earlier run left a directory in the sandbox. */
  function LeftoverHost(): Host {
    CleanHost()[WAPI := DirEntry]
  }

  /** An application without a bundle, whose host directory is the host's root. */
  function EmptyParts(): Parts {
    Parts([], "A.app", Directory(map[], None), {}, Directory(map[], None))
  }

  lemma {:induction false} CleanEntry(k: Path)
    requires k in CleanHost() && k != []
    ensures IsDir(CleanHost(), Parent(k)) && (k[0] == "root" || k[0] == "AppSandbox" ==> |k| == 1)
  {
    var x: Path := ["Library", "x"];
    assert x[..1] == ["Library"] && "root"[0] == 'r' && "AppSandbox"[0] == 'A' && "Library"[0] == 'L';
    assert k == x || Parent(k) == [];
  }

  lemma {:induction false} CleanDirsThere()
    ensures DirsThere(CleanHost(), []) && Closed(CleanHost())
    ensures !HasMore(CleanHost(), ["AppSandbox"]) && !HasMore(CleanHost(), ["root"])
  {
    var none: Path := [];
    assert none + ["root"] == ["root"] && none + ["AppSandbox"] == ["AppSandbox"] && none + ["tmp"] == ["tmp"];
    assert none + ["Documents"] == ["Documents"] && none + ["Library"] == ["Library"];
    assert DirsThere(CleanHost(), []);
    hide CleanHost;
    forall k
      ensures Placed(CleanHost(), k)
      ensures k in CleanHost() && (["root"] <= k || ["AppSandbox"] <= k) ==> |k| == 1
    {
      if k in CleanHost() && k != [] {
        CleanEntry(k);
      }
    }
  }

  lemma {:induction false} EmptyIsHostless(host: Host)
    requires Closed(host)
    ensures var n := Directory(map[], None);
      Hostless(n) && NoWriteableDirs(n) && Mirror(n, host) && AllAligned(n) && HostsIn(n, {})
  {
    var n := Directory(map[], None);
    assert Hostless(n) && NoWriteableDirs(n);
    HostlessIsGood(n, host, []);
  }

  lemma {:induction false} EmptyPartsOk(host: Host)
    requires Closed(host) && DirsThere(host, []) && !HasMore(host, ["root"])
    ensures PartsOk(host, EmptyParts())
  {
    var none: Path := [];
    assert none + ["root"] == ["root"];
    assert "A.app"[1] == '.' && "Documents"[1] == 'o' && "Library"[1] == 'i' && "tmp"[1] == 'm';
    hide HasMore, DirsThere, Hostless, NoWriteableDirs, Mirror, HostsIn, AllAligned, Closed;
    EmptyIsHostless(host);
  }

  /** A launch with leftovers and one without are among those spoken of here. */
  lemma {:induction false} RunsExist()
    ensures PartsOk(CleanHost(), EmptyParts()) && !HasMore(CleanHost(), EmptyParts().base + ["AppSandbox"])
    ensures PartsOk(LeftoverHost(), EmptyParts()) && HasMore(LeftoverHost(), EmptyParts().base + ["AppSandbox"])
  {
    CleanDirsThere();
    var none: Path := [];
    assert none + ["AppSandbox"] == ["AppSandbox"];
    EmptyPartsOk(CleanHost());
    LeftoverDirsThere();
    EmptyPartsOk(LeftoverHost());
  }

  lemma {:induction false} LeftoverDirsThere()
    ensures DirsThere(LeftoverHost(), []) && !HasMore(LeftoverHost(), ["root"])
      && HasMore(LeftoverHost(), ["AppSandbox"])
    ensures Closed(LeftoverHost())
  {
    CleanDirsThere();
    var none: Path := [];
    assert none + ["AppSandbox"] == ["AppSandbox"] == Parent(WAPI) && "root"[0] != "AppSandbox"[0];
    assert WAPI[0] == "AppSandbox" && WAPI in LeftoverHost() && ["AppSandbox"] <= WAPI;
    hide CleanHost;
    forall k
      ensures Placed(LeftoverHost(), k)
    {
      assert Placed(CleanHost(), k);
    }
  }

  // ----- the library

  /**
   In every launch, whatever the host has, two changes lead to a failing unwrap: the library is renamed in
   the home directory, and then a directory is created in its other mount.
   */
  lemma {:induction false} SharedLibraryFails(host: Host, p: Parts) returns (renamed: string, created: string)
    requires PartsOk(host, p)
    ensures var o := Apply(StartTree(host, p), host, MoveTo(HOME + ["Library"], HOME + [renamed], HOME + ["Library"]));
      o.Changed? && Apply(o.root, o.host, MakeDirectory(LIBRARY + [created])).Panic?
  {
    StartMirrors(host, p);
    renamed := NewName(host, p.base);
    LibraryCanMove(host, p, renamed);
    hide Mirror, StartTree, PartsOk, View, Apply;
    created := RenamingStrands(StartTree(host, p), host, HOME + ["Library"], HOME + [renamed], LIBRARY,
      p.base + ["Library"]);
  }

  /** Once a directory is renamed, nothing can be created in a node elsewhere with its host directory. */
  lemma {:induction false} RenamingStrands(root: Node, host: Host, q: Path, r: Path, s: Path, from: Path)
    returns (created: string)
    requires Mirror(root, host) && HostAgrees(root, host, q, r) && !IntoItself(q, r) && !(q <= s) && !(r <= s)
    requires View(root, q) == View(root, s) == Some(DirInfo(Some(from))) && MoveOf(root, host, q, r).to != from
    ensures var o := Apply(root, host, MoveTo(q, r, q));
      o.Changed? && Apply(o.root, o.host, MakeDirectory(s + [created])).Panic?
  {
    hide Mirror, View, Rename, HostAgrees, CreateDir;
    DirectoryLeftBehind(root, host, q, r, s, from);
    AgreedHasHost(root, host, q, r);
    FindsItself(root, q);
    RenameAnyCaseIs(root, host, q, r, q);
    var o := Rename(root, host, q, r);
    created := NothingFits(o.root, o.host, s);
  }

  /** It is not backed. */
  lemma {:induction false} DirectoryLeftBehind(root: Node, host: Host, q: Path, r: Path, s: Path, from: Path)
    requires Mirror(root, host) && HostAgrees(root, host, q, r) && !IntoItself(q, r) && !(q <= s) && !(r <= s)
    requires View(root, q) == View(root, s) == Some(DirInfo(Some(from))) && MoveOf(root, host, q, r).to != from
    ensures var o := Rename(root, host, q, r);
      && o.Changed? && Closed(o.host) && View(o.root, s) == Some(DirInfo(Some(from)))
      && !Backed(o.host, DirInfo(Some(from)))
  {
    RenameViews(root, host, q, r);
    AgreedIsMovable(root, host, q, r);
    RenameKeepsClosed(root, host, q, r);
    hide Mirror, View, Rename, HostAfter, HostAgrees, Movable;
    var m := MoveOf(root, host, q, r);
    StayingBacked(m, s);
    assert LeftBehind(m, s);
  }

  lemma {:induction false} LibraryCanMove(host: Host, p: Parts, renamed: string)
    requires PartsOk(host, p) && p.base + ["AppSandbox"] + [renamed] !in host && renamed != "Library"
    ensures var r := StartTree(host, p); var q := HOME + ["Library"]; var t := HOME + [renamed];
      && HostAgrees(r, host, q, t) && !IntoItself(q, t) && !(q <= LIBRARY) && !(t <= LIBRARY)
      && View(r, q) == View(r, LIBRARY) == Some(DirInfo(Some(p.base + ["Library"])))
      && MoveOf(r, host, q, t).to != p.base + ["Library"]
  {
    LibraryAtBoth(host, p);
    var r, q, t := StartTree(host, p), HOME + ["Library"], HOME + [renamed];
    assert Parent(t) == HOME && Name(t) == renamed;
    var from, to := p.base + ["Library"], p.base + ["AppSandbox"] + [renamed];
    assert IsDir(host, p.base + ["Library"]) && IsDir(host, p.base + ["AppSandbox"]);
    hide StartTree, PartsOk, Moved;
    ParentOf(p.base + ["AppSandbox"], renamed);
    assert !(from <= to) by {
      assert from[|p.base|] == "Library" && to[|p.base|] == "AppSandbox";
      assert "Library"[0] != "AppSandbox"[0];
    }
    assert HostRename(host, from, to).HostOk?;
    assert q[4] != t[4];
  }

  // ----- names of another case

  /**
   In every launch one change leads to a failing unwrap: the library in the home directory is renamed by a name
   of another case. The lookup finds it and the host renames it, but it is not taken out of the tree by that name.
   */
  lemma {:induction false} OtherCaseFails(host: Host, p: Parts) returns (spelled: string, renamed: string)
    requires PartsOk(host, p)
    ensures var q := HOME + [spelled];
      && Found(StartTree(host, p), q, HOME + ["Library"])
      && Apply(StartTree(host, p), host, MoveTo(q, HOME + [renamed], HOME + ["Library"])).Panic?
  {
    renamed := NewName(host, p.base);
    LibraryCanMove(host, p, renamed);
    spelled := OtherSpelling(p);
    LibraryFound(host, p, spelled);
    hide StartTree, PartsOk, View, HostAgrees, Found, Apply;
    OtherCasePanics(StartTree(host, p), host, HOME + [spelled], HOME + [renamed], HOME + ["Library"]);
  }

  lemma {:induction false} OtherCasePanics(root: Node, host: Host, q: Path, r: Path, found: Path)
    requires Found(root, q, found) && found != q && HostAgrees(root, host, found, r)
    ensures Apply(root, host, MoveTo(q, r, found)).Panic?
  {
    hide HostAgrees, RenameAnyCase;
    RenameAnyCaseIs(root, host, q, r, found);
  }

  /** A name of another case that is not in the home directory. */
  lemma {:induction false} OtherSpelling(p: Parts) returns (spelled: string)
    ensures spelled !in HomeNames(p) && LowerCase(spelled) == LowerCase("Library")
    ensures HOME + [spelled] != HOME + ["Library"]
  {
    spelled := if p.bundleName == "library" then "LIbrary" else "library";
    SpelledSame();
    assert "Library"[0] == 'L' && "Library"[1] == 'i' && "Documents"[0] == 'D' && "tmp"[0] == 't';
    assert "library"[0] == 'l' && "LIbrary"[0] == 'L' && "LIbrary"[1] == 'I';
    hide LowerCase;
    assert (HOME + [spelled])[4] == spelled && (HOME + ["Library"])[4] == "Library";
  }

  lemma {:induction false} SpelledSame()
    ensures LowerCase("library") == LowerCase("LIbrary") == LowerCase("Library")
  {
    assert "library" == ['l'] + "ibrary" && "Library" == ['L'] + "ibrary" && "LIbrary" == ['L'] + "Ibrary";
    assert "Ibrary" == ['I'] + "brary" && "ibrary" == ['i'] + "brary";
    assert Lower('l') == Lower('L') && Lower('I') == Lower('i');
    hide LowerCase, Lower;
    OtherFirst('l', 'L', "ibrary");
    OtherFirst('I', 'i', "brary");
    OtherRest('L', "Ibrary", "ibrary");
  }

  lemma {:induction false} OtherFirst(c: char, d: char, rest: string)
    requires Lower(c) == Lower(d)
    ensures LowerCase([c] + rest) == LowerCase([d] + rest)
  {
    assert ([c] + rest)[1..] == rest == ([d] + rest)[1..];
  }

  lemma {:induction false} OtherRest(c: char, s: string, t: string)
    requires LowerCase(s) == LowerCase(t)
    ensures LowerCase([c] + s) == LowerCase([c] + t)
  {
    assert ([c] + s)[1..] == s && ([c] + t)[1..] == t;
  }

  lemma {:induction false} LibraryFound(host: Host, p: Parts, spelled: string)
    requires PartsOk(host, p) && spelled !in HomeNames(p) && LowerCase(spelled) == LowerCase("Library")
    ensures Found(StartTree(host, p), HOME + [spelled], HOME + ["Library"])
  {
    NotInHome(host, p, spelled);
    LibraryAtBoth(host, p);
    hide StartTree, PartsOk, LowerCase, View, Found;
    FoundInAnotherCase(StartTree(host, p), HOME, spelled, "Library");
  }

  lemma {:induction false} NotInHome(host: Host, p: Parts, name: string)
    requires PartsOk(host, p) && name !in HomeNames(p)
    ensures View(StartTree(host, p), HOME + [name]).None?
  {
    StartHas(host, p);
    hide StartTree, PartsOk, View, FromHostDir;
    assert InHome(name, []) == HOME + [name];
  }

  lemma {:induction false} FoundInAnotherCase(root: Node, d: Path, spelled: string, name: string)
    requires View(root, d + [name]).Some? && View(root, d + [spelled]).None? && LowerCase(spelled) == LowerCase(name)
    ensures Found(root, d + [spelled], d + [name])
  {
    hide LowerCase;
    var a := d + [name];
    assert a[..|d|] == d;
  }

  /** Both mounts of the library, and the home directory. */
  lemma {:induction false} LibraryAtBoth(host: Host, p: Parts)
    requires PartsOk(host, p)
    ensures var r := StartTree(host, p);
      && View(r, HOME) == Some(DirInfo(Some(p.base + ["AppSandbox"])))
      && View(r, HOME + ["Library"]) == View(r, LIBRARY) == Some(DirInfo(Some(p.base + ["Library"])))
  {
    StartHas(host, p);
    var h := p.base + ["Library"];
    ViewFromHost(host, h, true, []);
    assert h + [] == h && InHome("Library", []) == HOME + ["Library"] && LIBRARY + [] == LIBRARY;
  }

  lemma {:induction false} NewName(host: Host, base: Path) returns (name: string)
    ensures base + ["AppSandbox"] + [name] !in host && name != "Library"
  {
    var names := set k | k in host && k != [] :: Name(k);
    name := FreshName(names + {"Library"});
    assert "Library" in names + {"Library"};
    forall k | k in host && k != []
      ensures Name(k) != name
    {
      assert Name(k) in names;
    }
    ParentOf(base + ["AppSandbox"], name);
  }

  /**
   In every launch with a file in the library: once it is removed through the home directory, opening it in
   the other mount fails an unwrap.
   */
  lemma {:induction false} SharedFileFails(host: Host, p: Parts, x: Path, contents: nat)
    requires PartsOk(host, p) && IsFile(host, p.base + ["Library"] + x)
    ensures var o := Apply(StartTree(host, p), host, Delete(InHome("Library", x)));
      o.Changed? && Apply(o.root, o.host, OpenFile(LIBRARY + x, READ, contents)).Panic?
  {
    FileAtBoth(host, p, x);
    StartMirrors(host, p);
    hide Mirror, StartTree, PartsOk, View, Apply, Full, AllAttached;
    RemovingStrands(StartTree(host, p), host, InHome("Library", x), LIBRARY + x, p.base + ["Library"] + x, contents);
  }

  /** A first launch that fails: with the file `x` in the library. */
  lemma {:induction false} FirstLaunchFails()
    ensures PartsOk(CleanHost(), EmptyParts()) && !HasMore(CleanHost(), EmptyParts().base + ["AppSandbox"])
    ensures var r := StartTree(CleanHost(), EmptyParts());
      var o := Apply(r, CleanHost(), Delete(InHome("Library", ["x"])));
      o.Changed? && Apply(o.root, o.host, OpenFile(LIBRARY + ["x"], READ, 0)).Panic?
  {
    RunsExist();
    var none: Path := [];
    assert none + ["Library"] + ["x"] == ["Library", "x"];
    assert IsFile(CleanHost(), EmptyParts().base + ["Library"] + ["x"]);
    hide PartsOk, CleanHost, Apply, StartTree;
    SharedFileFails(CleanHost(), EmptyParts(), ["x"], 0);
  }

  /** Once a file is removed, a node elsewhere for it cannot be opened. */
  lemma {:induction false} RemovingStrands(root: Node, host: Host, q: Path, s: Path, p: Path, contents: nat)
    requires Mirror(root, host) && q != s && q != [] && s != []
    requires View(root, q) == View(root, s) == Some(FileInfo(HostFile(p), true))
    requires View(root, Parent(q)).Some? && View(root, Parent(q)).value.DirInfo?
      && View(root, Parent(q)).value.writeable.Some?
    ensures var o := Apply(root, host, Delete(q));
      o.Changed? && Apply(o.root, o.host, OpenFile(s, READ, contents)).Panic?
  {
    MirrorAt(root, host, q);
    RemoveKeepsMirror(root, host, q);
    FileHasNoMore(host, p);
    ViewParent(root, s);
    hide Mirror, RemoveNode, Open, View;
    assert Removable(root, q);
    RemovalStrandsSharers(root, host, q, s, p, READ, contents);
  }

  lemma {:induction false} FileHasNoMore(host: Host, p: Path)
    requires Closed(host) && IsFile(host, p)
    ensures !HasMore(host, p)
  {
    forall k | k in host && p <= k
      ensures k == p
    {
      NothingUnderFile(host, p, k);
    }
  }

  /** A file in the library is in both mounts. */
  lemma {:induction false} FileAtBoth(host: Host, p: Parts, x: Path)
    requires PartsOk(host, p) && IsFile(host, p.base + ["Library"] + x)
    ensures var r := StartTree(host, p); var q := InHome("Library", x);
      && q != LIBRARY + x && x != []
      && View(r, q) == View(r, LIBRARY + x) == Some(FileInfo(HostFile(p.base + ["Library"] + x), true))
      && View(r, Parent(q)).Some? && View(r, Parent(q)).value.DirInfo? && View(r, Parent(q)).value.writeable.Some?
  {
    ReadFile(host, p.base + ["Library"], x);
    hide View, StartTree, FromHostDir, PartsOk, IsFile;
    LibraryViews(host, p, x);
    LibraryViews(host, p, Parent(x));
    InHomeParent("Library", x);
  }

  lemma {:induction false} LibraryViews(host: Host, p: Parts, x: Path)
    requires PartsOk(host, p)
    ensures View(StartTree(host, p), InHome("Library", x)) == View(StartTree(host, p), LIBRARY + x)
      == View(FromHostDir(host, p.base + ["Library"], true), x)
  {
    StartHas(host, p);
  }

  lemma {:induction false} InHomeParent(name: string, x: Path)
    requires x != []
    ensures InHome(name, x) != [] && Parent(InHome(name, x)) == InHome(name, Parent(x))
    ensures InHome(name, x) != LIBRARY + x
  {
    assert |InHome(name, x)| != |LIBRARY + x|;
  }

  /** A file of a directory that is read in. */
  lemma {:induction false} ReadFile(host: Host, h: Path, x: Path)
    requires Closed(host) && IsDir(host, h) && IsFile(host, h + x)
    ensures x != [] && var n := FromHostDir(host, h, true);
      View(n, x) == Some(FileInfo(HostFile(h + x), true)) && View(n, Parent(x)) == Some(DirInfo(Some(h + Parent(x))))
  {
    ViewFromHost(host, h, true, x);
    assert x != [] by { assert h + [] == h; }
    ViewFromHost(host, h, true, Parent(x));
    assert Placed(host, h + x) && Parent(h + x) == h + Parent(x);
  }

  // ----- read-only launches

  /** The tree of a read-only launch: no host directory is made or mounted. */
  function ReadOnlyTree(p: Parts): Node {
    var home := Directory(map[p.bundleName := p.bundle], None);
    var mobile := Directory(map["Applications" := Directory(map[UUID := home], None),
      "Library" := Directory(map[], None)], None);
    Directory(map["var" := Directory(map["mobile" := mobile], None),
      "usr" := Directory(map["lib" := p.libraries], None)],
      None)
  }

  /** Backed by the host, and not to be written. */
  ghost predicate ReadOnlyInfo(host: Host, i: Info) {
    Backed(host, i) && match i case FileInfo(_, canWrite) => !canWrite case DirInfo(writeable) => writeable.None?
  }

  ghost predicate ReadOnly(n: Node, host: Host) {
    forall x {:trigger View(n, x)} :: View(n, x).Some? ==> ReadOnlyInfo(host, View(n, x).value)
  }

  lemma {:induction false} ReadOnlyDirectory(children: map<string, Node>, host: Host)
    requires forall name :: name in children ==> ReadOnly(children[name], host)
    ensures ReadOnly(Directory(children, None), host)
  {
    var n := Directory(children, None);
    forall x | View(n, x).Some?
      ensures ReadOnlyInfo(host, View(n, x).value)
    {
      if x != [] {
        assert View(n, x) == View(children[x[0]], x[1..]);
      }
    }
  }

  lemma {:induction false} ReadOnlyTreeIsReadOnly(host: Host, p: Parts)
    requires ReadOnly(p.bundle, host) && ReadOnly(p.libraries, host)
    ensures ReadOnly(ReadOnlyTree(p), host)
  {
    hide ReadOnly;
    ReadOnlyDirectory(map[], host);
    ReadOnlyDirectory(map["lib" := p.libraries], host);
    ReadOnlyDirectory(map[p.bundleName := p.bundle], host);
    var home := Directory(map[p.bundleName := p.bundle], None);
    ReadOnlyDirectory(map[UUID := home], host);
    ReadOnlyDirectory(map["Applications" := Directory(map[UUID := home], None), "Library" := Directory(map[], None)],
      host);
    var mobile := Directory(map["Applications" := Directory(map[UUID := home], None),
      "Library" := Directory(map[], None)], None);
    ReadOnlyDirectory(map["mobile" := mobile], host);
    ReadOnlyDirectory(map["var" := Directory(map["mobile" := mobile], None),
      "usr" := Directory(map["lib" := p.libraries], None)], host);
  }

  lemma {:induction false} ReadOnlyCreatesNothing(root: Node, host: Host, q: Path)
    requires Mirror(root, host) && ReadOnly(root, host)
    ensures CreateDir(root, host, q).Refused?
  {
    CreateDirKeepsMirror(root, host, q);
  }

  lemma {:induction false} ReadOnlyCreatesNone(root: Node, host: Host, steps: seq<Path>, k: nat)
    requires Mirror(root, host) && ReadOnly(root, host)
    ensures var o := CreateAll(root, host, steps, k); !o.AllPanic? && o.root == root && o.host == host
    decreases |steps| - k
  {
    hide Mirror, ReadOnly, CreateDir;
    if k < |steps| {
      ReadOnlyCreatesNothing(root, host, steps[k]);
      ReadOnlyCreatesNone(root, host, steps, k + 1);
    }
  }

  lemma {:induction false} ReadOnlyOpens(root: Node, host: Host, q: Path, asked: Mode, contents: nat)
    requires Mirror(root, host) && ReadOnly(root, host)
    ensures var o := Open(root, host, q, asked, contents);
      && (o.OpenPanic? <==> AsksHost(root, q, Forced(asked)) && !Forced(asked).Valid())
      && (o.Opened? ==> o.root == root && o.host == host)
  {
    OpenKeepsMirror(root, host, q, asked, contents);
    hide Mirror;
    if HasParent(root, q) {
      LookupChild(root, q);
    }
  }

  /**
   In a read-only launch, and wherever nothing can be written, no change ever alters the tree or the host, and
   only opening a host file with an access mode that the host does not take fails unexpectedly.
   */
  lemma {:induction false} ReadOnlyChangesNothing(root: Node, host: Host, c: Change)
    requires Mirror(root, host) && ReadOnly(root, host)
    ensures var o := Apply(root, host, c);
      && (o.Changed? ==> o.root == root && o.host == host)
      && (o.Panic? <==> c.OpenFile? && AsksHost(root, c.q, Forced(c.mode)) && !Forced(c.mode).Valid())
  {
    hide Mirror, CreateDir, CreateAll, Open, RemoveNode, Rename;
    match c
    case MakeDirectory(q) => ReadOnlyCreatesNothing(root, host, q);
    case MakeAll(q) => ReadOnlyCreatesNone(root, host, StepsTo(q), 0);
    case OpenFile(q, mode, contents) => ReadOnlyOpens(root, host, q, mode, contents);
    case Delete(q) => RemoveKeepsMirror(root, host, q);
    case MoveTo(q, r, found) => ReadOnlyMovesNothing(root, host, q, r, found);
  }

  lemma {:induction false} ReadOnlyMovesNothing(root: Node, host: Host, q: Path, r: Path, found: Path)
    requires ReadOnly(root, host)
    ensures RenameAnyCase(root, host, q, r, found).Refused?
  {
    if Found(root, q, found) {
      FoundNames(root, q, found);
      RefusedUnlessAgreed(root, host, Lookup(root, found).value, q, r);
    }
  }

  /** So it is with the tree of a read-only launch, with whatever is read-only as bundle and libraries. */
  lemma {:induction false} ReadOnlyLaunchChangesNothing(host: Host, p: Parts, c: Change)
    requires Closed(host) && ReadOnly(p.bundle, host) && ReadOnly(p.libraries, host)
    ensures var r := ReadOnlyTree(p); var o := Apply(r, host, c);
      && Mirror(r, host) && (o.Changed? ==> o.root == r && o.host == host)
      && (o.Panic? <==> c.OpenFile? && AsksHost(r, c.q, Forced(c.mode)) && !Forced(c.mode).Valid())
  {
    ReadOnlyTreeIsReadOnly(host, p);
    assert Mirror(ReadOnlyTree(p), host) by { hide View; }
    hide ReadOnlyTree, ReadOnly, Mirror, Apply, AsksHost;
    ReadOnlyChangesNothing(ReadOnlyTree(p), host, c);
  }
}
