/**
 The guest file system in place (src/fs.rs): path strings, the working directory and the cache of name
 lookups, with the operations of `Vfs` behind them.
 */
module GuestFs {
  import opened Common
  import opened GuestPaths
  import opened FileTree
  import opened HostMirror
  import opened NodeLookup
  import opened Vfs
  import opened NameIndex

  // ----- names

  /** The names in the tree stay clean when a node with a clean path is added. */
  lemma {:induction false} GrowingKeepsNames(root: Node, root2: Node, q: Path, i: Info)
    requires NamesOk(root) && AllClean(q) && AllNoSlash(q) && Grown(root, root2, q, i)
    ensures NamesOk(root2)
  {
    hide View;
  }

  lemma {:induction false} RemovingKeepsNames(root: Node, q: Path)
    requires NamesOk(root) && HasParent(root, q)
    ensures NamesOk(Remove(root, q))
  {
    forall s | View(Remove(root, q), s).Some?
      ensures AllClean(s) && AllNoSlash(s)
    {
      ViewRemove(root, q, s);
    }
  }

  lemma {:induction false} RenamingKeepsNames(root: Node, host: Host, n: Node, q: Path, r: Path)
    requires NamesOk(root) && AllClean(r) && AllNoSlash(r) && RenameFound(root, host, n, q, r).Changed?
    ensures NamesOk(RenameFound(root, host, n, q, r).root)
  {
    var o := RenameFound(root, host, n, q, r);
    var moved := Lookup(root, q).value;
    var to := Lookup(root, Parent(r)).value.writeable.value + [Name(r)];
    var root1 := Remove(root, q);
    assert o.root == Insert(root1, r, Rebase(moved, to));
    RemovingKeepsNames(root, q);
    forall s | View(o.root, s).Some?
      ensures AllClean(s) && AllNoSlash(s)
    {
      ViewInsert(root1, r, Rebase(moved, to), s);
      if r <= s {
        var x := s[|r|..];
        ViewRebase(moved, to, x);
        LookupAppends(root, q, x);
        SuffixNames(root, q, x);
        assert s == r + x;
      }
    }
  }

  /** Only an open that creates changes the tree. */
  lemma {:induction false} OpeningGrows(root: Node, host: Host, q: Path, asked: Mode, contents: nat)
    requires Open(root, host, q, asked, contents).Opened?
    ensures var o := Open(root, host, q, asked, contents);
      o.root == root || (asked.create && o.handle.HostHandle?
        && Grown(root, o.root, q, FileInfo(HostFile(o.handle.path), true)))
  {
    if HasParent(root, q) {
      LookupChild(root, q);
      var o := Open(root, host, q, asked, contents);
      if Lookup(root, q).None? {
        InsertLeafViews(root, q, File(HostFile(o.handle.path), true));
      }
    }
  }

  lemma {:induction false} RemovedTree(root: Node, host: Host, q: Path)
    requires RemoveNode(root, host, q).Changed?
    ensures HasParent(root, q) && RemoveNode(root, host, q).root == Remove(root, q)
  {
  }

  lemma {:induction false} ResolvedNames(path: string, relativeTo: Option<string>)
    requires Resolvable(path, relativeTo)
    ensures AllClean(Resolve(path, relativeTo)) && AllNoSlash(Resolve(path, relativeTo))
  {
    ResolvedIsClean(path, relativeTo);
    ResolvedHasNoSlash(path, relativeTo);
  }

  lemma {:induction false} TwoMarkers(cs: Path, i: nat, j: nat)
    requires i < j && MarkerAt(cs, i) && MarkerAt(cs, j) && |cs| > 6
    ensures DuplicateStart(cs).Some?
  {
    hide FindMarker;
  }

  /** A prefix has no sandbox path pasted into it that the whole has not. */
  lemma {:induction false} DuplicateInPrefix(cs: Path, k: nat)
    requires k <= |cs|
    ensures DuplicateStart(cs[..k]).Some? ==> DuplicateStart(cs).Some?
  {
    var t := cs[..k];
    hide FindMarker;
    if DuplicateStart(t).Some? {
      var first := FindMarker(t, 0).value;
      var second := FindMarker(t, first + 1).value;
      TwoMarkers(cs, first, second);
    }
  }

  // ----- lookups by name

  ghost predicate IsDirAt(root: Node, a: Path) {
    Lookup(root, a).Some? && Lookup(root, a).value.Directory?
  }

  /** An index is that of the directory at `a`, which an absolute base path leads to. */
  ghost predicate CachedOk(root: Node, base: string, a: Path, index: Index) {
    && IsDirAt(root, a) && IndexOk(index, Lookup(root, a).value)
    && (IsAbsolute(base) ==> Found(root, Resolve(base, None), a))
  }

  ghost predicate CacheOk(root: Node, cache: map<string, Index>, origin: map<string, Path>) {
    forall base {:trigger base in cache} :: base in cache ==>
      base in origin && CachedOk(root, base, origin[base], cache[base])
  }

  /** The file at `x` below `a`, at least one directory down, has the name asked for. */
  predicate FileMatch(root: Node, b: Path, x: Path, name: string) {
    |x| >= 2 && View(root, b + x).Some? && View(root, b + x).value.FileInfo? && LowerCase(Name(x)) == LowerCase(name)
  }

  /** No other file with the name comes before it. */
  ghost predicate LeastMatch(root: Node, b: Path, x: Path, name: string) {
    FileMatch(root, b, x, name) && forall y :: FileMatch(root, b, y, name) ==> PathLe(Join(x), Join(y))
  }

  /**
   Paths below `b` are read back: none looks like a sandbox path pasted behind another, and names are exact
   or unique.
   */
  ghost predicate Readable(root: Node, b: Path, a: Path) {
    && (a == b || !HasTwins(root))
    && forall x {:trigger View(root, a + x)} :: View(root, a + x).Some? ==> DuplicateStart(b + x).None?
  }

  lemma {:induction false} MarkerInPrefix(u: Path, x: Path, j: nat)
    ensures MarkerAt(u, j) ==> MarkerAt(u + x, j)
    ensures j + 3 <= |u| && MarkerAt(u + x, j) ==> MarkerAt(u, j)
  {
  }

  /** What follows does not change where the second sandbox path starts. */
  lemma {:induction false} DuplicateStays(u: Path, x: Path)
    requires DuplicateStart(u).Some?
    ensures DuplicateStart(u + x) == DuplicateStart(u)
  {
    hide FindMarker, MarkerAt;
    var t := u + x;
    var first := FindMarker(u, 0).value;
    var second := FindMarker(u, first + 1).value;
    MarkerFits(u, second);
    forall j: nat | j <= second
      ensures MarkerAt(u, j) <==> MarkerAt(t, j)
    {
      MarkerInPrefix(u, x, j);
    }
  }

  lemma {:induction false} MarkerFits(u: Path, j: nat)
    requires MarkerAt(u, j)
    ensures j + 3 <= |u|
  {
  }

  lemma {:induction false} SplitJoin(x: Path)
    requires x != [] && AllNoSlash(x)
    ensures Split(Join(x)) == x
  {
    SplitSlashed(x[1..]);
    assert NoSlash(x[0]);
    SplitComponent(x[0], Slashed(x[1..]));
    assert x[0] + "" == x[0] && [x[0]] + x[1..] == x && ([""] + x[1..])[1..] == x[1..];
  }

  lemma {:induction false} UnstrippedBelow(base: string, dir: string, x: Path)
    requires IsAbsolute(dir) && base != "" && x != [] && AllClean(x) && AllNoSlash(x)
    ensures Unstripped(base + "/" + Join(x), Some(dir)) == Unstripped(base, Some(dir)) + x
  {
    hide Split;
    var full := base + "/" + Join(x);
    assert full[0] == base[0];
    SplitAppends(base, Join(x));
    SplitJoin(x);
    var start := if IsAbsolute(base) then [] else ApplyAll([], Split(dir));
    ApplyAllAppends(start, Split(base), x);
    ApplyCleanParts(ApplyAll(start, Split(base)), x);
  }

  /** A path below a base path leads where the base path leads and on. */
  lemma {:induction false} ResolveBelow(base: string, dir: string, x: Path)
    requires IsAbsolute(dir) && base != "" && x != [] && AllClean(x) && AllNoSlash(x)
    requires DuplicateStart(Resolve(base, Some(dir)) + x).None?
    ensures Resolve(base + "/" + Join(x), Some(dir)) == Resolve(base, Some(dir)) + x
  {
    hide FindMarker, Split;
    var u := Unstripped(base, Some(dir));
    UnstrippedBelow(base, dir, x);
    if DuplicateStart(u).Some? {
      DuplicateStays(u, x);
    }
  }

  lemma {:induction false} SuffixNames(root: Node, b: Path, x: Path)
    requires NamesOk(root) && View(root, b + x).Some?
    ensures AllClean(x) && AllNoSlash(x)
  {
    hide View;
    assert AllClean(b + x) && AllNoSlash(b + x);
    assert forall i :: 0 <= i < |x| ==> x[i] == (b + x)[|b| + i];
  }

  lemma {:induction false} SubtreeNames(root: Node, b: Path, n: Node)
    requires NamesOk(root) && Lookup(root, b) == Some(n)
    ensures NamesOk(n)
  {
    forall x | View(n, x).Some?
      ensures AllClean(x) && AllNoSlash(x)
    {
      LookupAppends(root, b, x);
      SuffixNames(root, b, x);
    }
  }

  /** The list has the paths below `n` whose names agree with `name`, in order. */
  ghost predicate CandidatesOk(n: Node, name: string, list: seq<string>) {
    SortedPaths(list) && forall rel {:trigger rel in list} :: rel in list <==>
      exists x :: Names(n, x, LowerCase(name), rel)
  }

  lemma {:induction false} CandidatesFromIndex(n: Node, index: Index, name: string)
    requires IndexOk(index, n)
    ensures CandidatesOk(n, name, At(index, LowerCase(name)))
  {
    hide LowerCase;
    var key := LowerCase(name);
    assert SortedPaths(At(index, key));
    forall rel
      ensures rel in At(index, key) <==> exists x :: Names(n, x, key, rel)
    {
    }
  }

  lemma {:induction false} AbsoluteResolve(path: string, dir: string)
    requires IsAbsolute(path) && IsAbsolute(dir)
    ensures Resolve(path, Some(dir)) == Resolve(path, None)
  {
  }

  lemma {:induction false} SameNamesBelow(a: Path, b: Path, x: Path)
    requires SameNames(a, b)
    ensures SameNames(a + x, b + x)
  {
    hide LowerCase;
  }

  /** The node that a candidate stands for, and where its full path leads. */
  lemma {:induction false} CandidatePath(root: Node, base: string, dir: string, a: Path, name: string,
      list: seq<string>, i: nat) returns (x: Path)
    requires IsAbsolute(dir) && base != "" && NamesOk(root) && IsDirAt(root, a)
    requires SameNames(a, Resolve(base, Some(dir))) && Readable(root, Resolve(base, Some(dir)), a)
    requires CandidatesOk(Lookup(root, a).value, name, list) && i < |list|
    ensures Names(Lookup(root, a).value, x, LowerCase(name), list[i]) && AllNoSlash(x)
    ensures var cs := Resolve(base + "/" + list[i], Some(dir));
      && Lookup(root, a + x).Some? && SameNames(a + x, cs) && (a + x == cs || !HasTwins(root))
      && (FileMatch(root, a, x, name) <==> Lookup(root, a + x).value.File?)
  {
    hide LowerCase, Resolve, Lookup, SortedPaths, DuplicateStart, HasTwins;
    assert list[i] in list;
    x :| Names(Lookup(root, a).value, x, LowerCase(name), list[i]);
    LookupAppends(root, a, x);
    assert View(root, a + x).Some?;
    SuffixNames(root, a, x);
    ResolveBelow(base, dir, x);
    SameNamesBelow(a, Resolve(base, Some(dir)), x);
  }

  lemma {:induction false} JoinIsInjective(x: Path, y: Path)
    requires x != [] && y != [] && AllNoSlash(x) && AllNoSlash(y) && Join(x) == Join(y)
    ensures x == y
  {
    SplitJoin(x);
    SplitJoin(y);
  }

  lemma {:induction false} NotThisOne(root: Node, b: Path, name: string, x: Path)
    requires NamesOk(root) && |x| >= 2 && AllNoSlash(x) && !FileMatch(root, b, x, name)
    ensures forall y :: FileMatch(root, b, y, name) ==> Join(x) != Join(y)
  {
    hide View, Join, LowerCase;
    forall y | FileMatch(root, b, y, name)
      ensures Join(x) != Join(y)
    {
      SuffixNames(root, b, y);
      if Join(x) == Join(y) {
        JoinIsInjective(x, y);
      }
    }
  }

  /** A file with the name is among the candidates. */
  lemma {:induction false} FileIsCandidate(root: Node, b: Path, n: Node, name: string, list: seq<string>, y: Path)
      returns (j: nat)
    requires Lookup(root, b) == Some(n) && CandidatesOk(n, name, list) && FileMatch(root, b, y, name)
    ensures j < |list| && list[j] == Join(y)
  {
    hide LowerCase, SortedPaths, Join;
    LookupAppends(root, b, y);
    assert Names(n, y, LowerCase(name), Join(y));
    assert Join(y) in list;
    j :| j < |list| && list[j] == Join(y);
  }

  lemma {:induction false} PathLeReflexive(a: string)
    ensures PathLe(a, a)
  {
    StringLeTotal(a, a);
  }

  lemma {:induction false} FirstFileIsLeast(root: Node, b: Path, n: Node, name: string, list: seq<string>, i: nat,
      x: Path)
    requires Lookup(root, b) == Some(n) && CandidatesOk(n, name, list) && i < |list| && list[i] == Join(x)
    requires forall j, y :: 0 <= j < i && FileMatch(root, b, y, name) ==> list[j] != Join(y)
    ensures forall y :: FileMatch(root, b, y, name) ==> PathLe(Join(x), Join(y))
  {
    forall y | FileMatch(root, b, y, name)
      ensures PathLe(Join(x), Join(y))
    {
      var j := FileIsCandidate(root, b, n, name, list, y);
      hide PathLe, FileMatch, Join, Lookup;
      PathLeReflexive(list[i]);
      assert j >= i;
    }
  }

  /** What is at `x` below `b`, at least one directory down, is a file of that name, ignoring case. */
  predicate IsFileNamed(root: Node, b: Path, x: Path, name: string) {
    |x| >= 2 && View(root, b + x).Some? && View(root, b + x).value.FileInfo? && SameButCase(Name(x), name)
  }

  /** No other file of that name is less deep, or as deep and before it in alphabetical order. */
  ghost predicate IsFirstFile(root: Node, b: Path, x: Path, name: string) {
    IsFileNamed(root, b, x, name) && forall y :: IsFileNamed(root, b, y, name) ==> ComesFirst(x, y)
  }

  lemma {:induction false} FileMatchMeans(root: Node, b: Path, name: string)
    ensures forall x :: FileMatch(root, b, x, name) <==> IsFileNamed(root, b, x, name)
  {
    forall x: Path
      ensures FileMatch(root, b, x, name) <==> IsFileNamed(root, b, x, name)
    {
      if |x| >= 2 {
        LowerCaseMeans(Name(x), name);
      }
    }
  }

  lemma {:induction false} LeastMatchMeans(root: Node, b: Path, x: Path, name: string)
    requires NamesOk(root)
    ensures LeastMatch(root, b, x, name) <==> IsFirstFile(root, b, x, name)
  {
    hide PathLe, ComesFirst, View, Join, LowerCase, SameButCase;
    FileMatchMeans(root, b, name);
    if IsFileNamed(root, b, x, name) {
      SuffixNames(root, b, x);
      forall y | IsFileNamed(root, b, y, name)
        ensures PathLe(Join(x), Join(y)) <==> ComesFirst(x, y)
      {
        SuffixNames(root, b, y);
        PathLeMeans(x, y);
      }
    }
  }

  lemma {:induction false} NoCandidateNoFile(root: Node, b: Path, n: Node, name: string, list: seq<string>)
    requires Lookup(root, b) == Some(n) && CandidatesOk(n, name, list)
    requires forall j, y :: 0 <= j < |list| && FileMatch(root, b, y, name) ==> list[j] != Join(y)
    ensures forall y :: !FileMatch(root, b, y, name)
  {
    forall y
      ensures !FileMatch(root, b, y, name)
    {
      if FileMatch(root, b, y, name) {
        var j := FileIsCandidate(root, b, n, name, list, y);
      }
    }
  }

  // ----- small steps of the methods

  lemma {:induction false} EmptyCacheIsOk(root: Node, origin: map<string, Path>)
    ensures CacheOk(root, map[], origin)
  {
  }

  lemma {:induction false} WritingOn(cs: Path, i: nat)
    requires i < |cs| && AllClean(cs) && AllNoSlash(cs)
    ensures Slashed(cs[..i + 1]) == Slashed(cs[..i]) + "/" + cs[i]
      && AbsoluteString(cs[..i + 1]) == Slashed(cs[..i + 1])
    ensures AllClean(cs[..i + 1]) && AllNoSlash(cs[..i + 1])
  {
    SlashedAppends(cs[..i], [cs[i]]);
    assert cs[..i + 1] == cs[..i] + [cs[i]];
    assert Slashed([cs[i]]) == "/" + cs[i] by { assert Slashed([cs[i]][1..]) == ""; }
  }

  /** What `create_dir_all` creates: the prefixes of a path, each written as a path and read again. */
  function StepsRead(cs: Path): (steps: seq<Path>)
    ensures |steps| == |cs| && forall i :: 0 <= i < |cs| ==> steps[i] == Deduplicated(cs[..i + 1])
  {
    seq(|cs|, i requires 0 <= i < |cs| => Deduplicated(cs[..i + 1]))
  }

  /** They are the prefixes themselves, unless a sandbox path stands behind another in the path. */
  lemma {:induction false} StepsReadAreSteps(cs: Path)
    requires DuplicateStart(cs).None?
    ensures StepsRead(cs) == StepsTo(cs)
  {
    hide FindMarker;
    forall i | 0 <= i < |cs|
      ensures StepsRead(cs)[i] == StepsTo(cs)[i]
    {
      DuplicateInPrefix(cs, i + 1);
    }
  }

  /** How an operation ends; `Panicked` if one of the source's unwraps or `handle_open_err` does. */
  datatype Reply = Done | Denied(error: FsError) | Panicked

  /** The operation's outcome is what the reply and the new state say. */
  ghost predicate Ends(o: Outcome, reply: Reply, root: Node, host: Host) {
    match reply
    case Done => o == Changed(root, host)
    case Denied(e) => o == Refused(e)
    case Panicked => o.Panic?
  }

  /** One step of `create_dir_all`. */
  lemma {:induction false} CreateAllStep(root: Node, host: Host, steps: seq<Path>, i: nat, reply: Reply, root2: Node,
      host2: Host)
    requires i < |steps| && Ends(CreateDir(root, host, steps[i]), reply, root2, host2)
    requires !reply.Done? ==> root2 == root && host2 == host
    ensures var o := CreateAll(root, host, steps, i);
      match reply
      case Done => o == CreateAll(root2, host2, steps, i + 1)
      case Denied(e) => if e.AlreadyExist? then o == CreateAll(root2, host2, steps, i + 1)
        else o == Stopped(root2, host2, e)
      case Panicked => o.AllPanic?
  {
    hide CreateDir;
  }

  lemma {:induction false} CreateAllEnds(root: Node, host: Host, steps: seq<Path>)
    ensures CreateAll(root, host, steps, |steps|) == AllDone(root, host)
  {
  }

  /** The outcome of `create_dir_all` is what the reply and the new state say. */
  ghost predicate AllEnds(o: AllOutcome, reply: Reply, root: Node, host: Host) {
    match reply
    case Done => o == AllDone(root, host)
    case Denied(e) => o == Stopped(root, host, e)
    case Panicked => o.AllPanic?
  }

  ghost predicate OpenEnds(o: Opened, handle: Option<Handle>, reply: Reply, root: Node, host: Host) {
    match o
    case Opened(r, h, x) => reply.Done? && handle == Some(x) && root == r && host == h
    case NotOpened => reply == Denied(Failed) && handle.None?
    case OpenPanic => reply.Panicked? && handle.None?
  }

  /** A change goes well exactly if it is fair. */
  ghost predicate WellIffFair(root: Node, host: Host, c: Change, reply: Reply, root2: Node, host2: Host) {
    Mirror(root, host) ==> (Fair(root, host, c) <==> !reply.Panicked? && Mirror(root2, host2))
  }

  lemma {:induction false} EndsWell(root: Node, host: Host, c: Change, reply: Reply, root2: Node, host2: Host)
    requires Ends(Apply(root, host, c), reply, root2, host2)
    requires !reply.Done? ==> root2 == root && host2 == host
    ensures WellIffFair(root, host, c, reply, root2, host2)
  {
    hide Mirror, Fair, Apply;
    if Mirror(root, host) {
      ChangeKeepsMirrorIffFair(root, host, c);
    }
  }

  /** Opening gives what is there, emptied just if that is asked for, or the file created. */
  ghost predicate OpensAsAsked(root: Node, host: Host, q: Path, asked: Mode, contents: nat, handle: Option<Handle>,
    root2: Node, host2: Host)
  {
    Mirror(root, host) && handle.Some? ==>
      var o := Opened(root2, host2, handle.value);
      if Vacant(root, q) then FileCreated(root, host, q, asked, contents, o)
      else ExistingOpened(root, host, q, asked, contents, o)
  }

  lemma {:induction false} OpeningIsAsAsked(root: Node, host: Host, q: Path, asked: Mode, contents: nat,
      handle: Option<Handle>, reply: Reply, root2: Node, host2: Host)
    requires OpenEnds(Open(root, host, q, asked, contents), handle, reply, root2, host2)
    ensures OpensAsAsked(root, host, q, asked, contents, handle, root2, host2)
  {
    hide Mirror, Open, ExistingOpened, FileCreated;
    if Mirror(root, host) {
      OpenKeepsMirror(root, host, q, asked, contents);
    }
  }

  lemma {:induction false} AllEndsWell(root: Node, host: Host, cs: Path, reply: Reply, root2: Node, host2: Host)
    requires AllEnds(CreateAll(root, host, StepsRead(cs), 0), reply, root2, host2)
    ensures DuplicateStart(cs).None? ==> WellIffFair(root, host, MakeAll(cs), reply, root2, host2)
  {
    hide Mirror, Fair, CreateAll, DuplicateStart;
    if Mirror(root, host) && DuplicateStart(cs).None? {
      StepsReadAreSteps(cs);
      ChangeKeepsMirrorIffFair(root, host, MakeAll(cs));
    }
  }

  class Fs {
    var root: Node
    var host: Host
    var workingDirectory: string
    var nameIndex: map<string, Index>
    /** Where the directories are that the cached indices describe. */
    ghost var origin: map<string, Path>

    ghost predicate Sound()
      reads this
    {
      IsAbsolute(workingDirectory) && NamesOk(root) && CacheOk(root, nameIndex, origin)
    }

    constructor (root: Node, host: Host)
      requires NamesOk(root)
      ensures Sound() && this.root == root && this.host == host && workingDirectory == "/"
    {
      this.root, this.host, workingDirectory, nameIndex, origin := root, host, "/", map[], map[];
    }

    method InvalidateNameIndex()
      modifies `nameIndex
      ensures nameIndex == map[]
    {
      nameIndex := map[];
    }

    /** Where a path leads. */
    function Goal(path: string): Path
      requires IsAbsolute(workingDirectory)
      reads `workingDirectory
    {
      Resolve(path, Some(workingDirectory))
    }

    // ----- lookups

    /** The node at a path; where a name is not there exactly, one that differs in case will do. */
    method LookupNodeInner(cs: Path) returns (r: Option<Node>, ghost actual: Path)
      ensures r.Some? ==> Found(root, cs, actual) && Lookup(root, actual) == r
      ensures r.None? ==> DeadEnd(root, cs, actual)
    {
      hide LowerCase;
      var node := root;
      actual := [];
      for i := 0 to |cs|
        invariant |actual| == i && SameNames(actual, cs[..i]) && Lookup(root, actual) == Some(node)
          && ExactFirst(root, cs, actual)
      {
        var name := cs[i];
        if node.File?
          || (name !in node.children && !(exists k :: k in node.children && LowerCase(k) == LowerCase(name)))
        {
          LookupStops(root, cs, actual, node);
          return None, actual;
        }
        if name !in node.children {
          name :| name in node.children && LowerCase(name) == LowerCase(cs[i]);
        }
        LookupGoesOn(root, cs, actual, node, name);
        actual := actual + [name];
        node := node.children[name];
      }
      assert cs[..|cs|] == cs;
      r := Some(node);
    }

    method LookupNode(path: string) returns (r: Option<Node>, ghost actual: Path)
      requires IsAbsolute(workingDirectory)
      ensures r.Some? ==> Found(root, Goal(path), actual) && Lookup(root, actual) == r
      ensures r.None? ==> DeadEnd(root, Goal(path), actual)
    {
      var cs := ResolvePath(path, Some(workingDirectory));
      r, actual := LookupNodeInner(cs);
    }

    method IsFileAt(path: string) returns (r: bool, ghost actual: Path)
      requires IsAbsolute(workingDirectory)
      ensures r ==> Found(root, Goal(path), actual) && Lookup(root, actual).value.File?
      ensures !r ==>
        DeadEnd(root, Goal(path), actual) || (Found(root, Goal(path), actual) && Lookup(root, actual).value.Directory?)
    {
      var n, a := LookupNode(path);
      r, actual := n.Some? && n.value.File?, a;
    }

    method ChangeWorkingDirectory(path: string) returns (ok: bool, ghost actual: Path)
      requires Sound()
      modifies `workingDirectory
      ensures Sound() && (!ok ==> workingDirectory == old(workingDirectory))
      ensures ok ==> workingDirectory == AbsoluteString(old(Goal(path)))
      ensures ok ==> Found(root, old(Goal(path)), actual) && IsDirAt(root, actual)
      ensures !ok ==>
        DeadEnd(root, old(Goal(path)), actual) || (Found(root, old(Goal(path)), actual) && !IsDirAt(root, actual))
    {
      hide Found, DeadEnd;
      var cs := ResolvePath(path, Some(workingDirectory));
      var n, a := LookupNodeInner(cs);
      actual := a;
      if n.None? || n.value.File? {
        return false, actual;
      }
      var written := "";
      for i := 0 to |cs|
        invariant written == Slashed(cs[..i])
      {
        SlashedAppends(cs[..i], [cs[i]]);
        assert cs[..i + 1] == cs[..i] + [cs[i]];
        assert Slashed([cs[i]]) == "/" + cs[i] by { assert Slashed([cs[i]][1..]) == ""; }
        written := written + "/" + cs[i];
      }
      assert cs[..|cs|] == cs;
      workingDirectory := if cs == [] then "/" else written;
      ok := true;
    }

    // ----- changes

    method CreateDirectory(path: string) returns (reply: Reply)
      requires Sound()
      modifies `root, `host, `nameIndex
      ensures Sound() && Ends(CreateDir(old(root), old(host), Goal(path)), reply, root, host)
      ensures !reply.Done? ==> root == old(root) && host == old(host)
      ensures WellIffFair(old(root), old(host), MakeDirectory(Goal(path)), reply, root, host)
    {
      hide Mirror, View, CreateDir, HostCreateDir, Lookup, WellIffFair;
      InvalidateNameIndex();
      var q := ResolvePath(path, Some(workingDirectory));
      ResolvedNames(path, Some(workingDirectory));
      match CreateDir(root, host, q) {
      case Changed(root2, host2) =>
        CreateDirGrows(root, host, q);
        GrowingKeepsNames(root, root2, q, DirInfo(Some(Place(root, q))));
        root, host := root2, host2;
        reply := Done;
      case Refused(e) =>
        reply := Denied(e);
      case Panic =>
        reply := Panicked;
      }
      EndsWell(old(root), old(host), MakeDirectory(q), reply, root, host);
    }

    /** `create_dir_all`: one `create_dir` for every prefix, written as a path and resolved again. */
    method CreateDirectoryAll(path: string) returns (reply: Reply)
      requires Sound()
      modifies `root, `host, `nameIndex
      ensures Sound() && AllEnds(CreateAll(old(root), old(host), StepsRead(Goal(path)), 0), reply, root, host)
      ensures DuplicateStart(Goal(path)).None? ==>
        WellIffFair(old(root), old(host), MakeAll(Goal(path)), reply, root, host)
    {
      hide Mirror, View, CreateDir, CreateAll, Lookup, WellIffFair, Ends, CacheOk, NamesOk, Split, FindMarker,
        AllClean, AllNoSlash;
      InvalidateNameIndex();
      assert Sound() by { EmptyCacheIsOk(root, origin); }
      var cs := ResolvePath(path, Some(workingDirectory));
      ResolvedNames(path, Some(workingDirectory));
      var written := "";
      for i := 0 to |cs|
        invariant Sound() && written == Slashed(cs[..i]) && workingDirectory == old(workingDirectory)
        invariant CreateAll(old(root), old(host), StepsRead(cs), 0) == CreateAll(root, host, StepsRead(cs), i)
      {
        WritingOn(cs, i);
        written := written + "/" + cs[i];
        AbsoluteStringResolvesBack(cs[..i + 1]);
        AbsoluteResolve(written, workingDirectory);
        ghost var root1, host1 := root, host;
        reply := CreateDirectory(written);
        CreateAllStep(root1, host1, StepsRead(cs), i, reply, root, host);
        if reply.Panicked? || (reply.Denied? && !reply.error.AlreadyExist?) {
          AllEndsWell(old(root), old(host), cs, reply, root, host);
          return;
        }
      }
      reply := Done;
      CreateAllEnds(root, host, StepsRead(cs));
      AllEndsWell(old(root), old(host), cs, reply, root, host);
    }

    /** `open_with_options`; `contents` is what a created or truncated file holds then. */
    method OpenWithOptions(path: string, asked: Mode, contents: nat) returns (handle: Option<Handle>, reply: Reply)
      requires Sound()
      modifies `root, `host, `nameIndex
      ensures Sound() && OpenEnds(Open(old(root), old(host), Goal(path), asked, contents), handle, reply, root, host)
      ensures !reply.Done? ==> root == old(root) && host == old(host)
      ensures !asked.create ==> root == old(root) && nameIndex == old(nameIndex)
      ensures WellIffFair(old(root), old(host), OpenFile(Goal(path), asked, contents), reply, root, host)
      ensures OpensAsAsked(old(root), old(host), Goal(path), asked, contents, handle, root, host)
    {
      hide Mirror, View, Open, Lookup, WellIffFair, OpensAsAsked;
      if asked.create {
        InvalidateNameIndex();
      }
      var q := ResolvePath(path, Some(workingDirectory));
      ResolvedNames(path, Some(workingDirectory));
      match Open(root, host, q, asked, contents) {
      case Opened(root2, host2, h) =>
        OpeningGrows(root, host, q, asked, contents);
        if root2 != root {
          GrowingKeepsNames(root, root2, q, FileInfo(HostFile(h.path), true));
        }
        root, host := root2, host2;
        handle, reply := Some(h), Done;
      case NotOpened =>
        handle, reply := None, Denied(Failed);
      case OpenPanic =>
        handle, reply := None, Panicked;
      }
      EndsWell(old(root), old(host), OpenFile(q, asked, contents), reply, root, host);
      OpeningIsAsAsked(old(root), old(host), q, asked, contents, handle, reply, root, host);
    }

    method RemoveAt(path: string) returns (reply: Reply)
      requires Sound()
      modifies `root, `host, `nameIndex
      ensures Sound() && Ends(RemoveNode(old(root), old(host), Goal(path)), reply, root, host)
      ensures !reply.Done? ==> root == old(root) && host == old(host)
      ensures WellIffFair(old(root), old(host), Delete(Goal(path)), reply, root, host)
    {
      hide Mirror, View, RemoveNode, Lookup, WellIffFair;
      InvalidateNameIndex();
      var q := ResolvePath(path, Some(workingDirectory));
      match RemoveNode(root, host, q) {
      case Changed(root2, host2) =>
        RemovedTree(root, host, q);
        RemovingKeepsNames(root, q);
        root, host := root2, host2;
        reply := Done;
      case Refused(e) =>
        reply := Denied(e);
      case Panic =>
        reply := Panicked;
      }
      EndsWell(old(root), old(host), Delete(q), reply, root, host);
    }

    /**
     `rename`. The source is looked up ignoring case and must then be there exactly; another spelling of
     an existing name panics once the host has agreed.
     */
    method RenameTo(from: string, to: string) returns (reply: Reply, ghost actual: Path)
      requires Sound()
      modifies `root, `host, `nameIndex
      ensures Sound()
      ensures from == to ==> reply.Done?
      ensures from == to || !reply.Done? ==> root == old(root) && host == old(host)
      ensures from != to ==>
        if DeadEnd(old(root), Goal(from), actual) then reply == Denied(Failed)
        else
          && Found(old(root), Goal(from), actual)
          && var n := Lookup(old(root), actual).value;
          Ends(RenameFound(old(root), old(host), n, Goal(from), Goal(to)), reply, root, host)
      ensures from != to ==>
        WellIffFair(old(root), old(host), MoveTo(Goal(from), Goal(to), actual), reply, root, host)
    {
      hide Mirror, View, RenameFound, Lookup, HostRename, WellIffFair, Found, DeadEnd;
      InvalidateNameIndex();
      if from == to {
        return Done, [];
      }
      var n, a := LookupNode(from);
      actual := a;
      var q := ResolvePath(from, Some(workingDirectory));
      var r := ResolvePath(to, Some(workingDirectory));
      ResolvedNames(to, Some(workingDirectory));
      if n.None? {
        NotFoundAt(root, q, a);
        EndsWell(root, host, MoveTo(q, r, a), Denied(Failed), root, host);
        return Denied(Failed), actual;
      }
      FoundNames(root, q, a);
      match RenameFound(root, host, n.value, q, r) {
      case Changed(root2, host2) =>
        RenamingKeepsNames(root, host, n.value, q, r);
        root, host := root2, host2;
        reply := Done;
      case Refused(e) =>
        reply := Denied(e);
      case Panic =>
        reply := Panicked;
      }
      EndsWell(old(root), old(host), MoveTo(q, r, a), reply, root, host);
    }

    // ----- lookups by name

    /** An index cached for a relative base path is that of the directory the path leads to now. */
    ghost predicate Current(base: string)
      requires IsAbsolute(workingDirectory)
      reads `root, `nameIndex, `origin, `workingDirectory
    {
      base in nameIndex && base in origin ==> Found(root, Goal(base), origin[base])
    }

    /** `candidates_for_name`; `a` is the directory that was searched, if there is one. */
    method CandidatesForName(base: string, name: string, order: Order)
        returns (r: Option<seq<string>>, ghost a: Option<Path>)
      requires Sound() && WalksAll(order)
      modifies `nameIndex, `origin
      ensures Sound() && (a.None? ==> r.None?)
      ensures a.Some? ==>
        && IsDirAt(root, a.value)
        && CandidatesOk(Lookup(root, a.value).value, name, if r.Some? then r.value else [])
      ensures a.Some? && old(Current(base)) ==> Found(root, Goal(base), a.value)
      ensures IsDirAt(root, Goal(base)) && old(Current(base)) ==> a == Some(Goal(base))
    {
      hide IndexOk, LowerCase, Resolve, NamesOk, Lookup, Found, DeadEnd;
      CachedIsCurrent(base);
      if base !in nameIndex {
        var n, actual := LookupNode(base);
        if IsDirAt(root, Goal(base)) {
          FoundExactly(root, Goal(base), actual);
        }
        if n.None? || n.value.File? {
          return None, None;
        }
        SubtreeNames(root, actual, n.value);
        var index := BuildIndex(n.value, order);
        if IsAbsolute(base) {
          AbsoluteResolve(base, workingDirectory);
        }
        nameIndex, origin := nameIndex[base := index], origin[base := actual];
      } else if IsDirAt(root, Goal(base)) && Current(base) {
        FoundExactly(root, Goal(base), origin[base]);
      }
      var key := LowerCase(name);
      a := Some(origin[base]);
      CandidatesFromIndex(Lookup(root, origin[base]).value, nameIndex[base], name);
      r := if key in nameIndex[base] then Some(nameIndex[base][key]) else None;
    }

    /** Indices of absolute base paths are always current. */
    lemma {:induction false} CachedIsCurrent(base: string)
      requires Sound()
      ensures IsAbsolute(base) ==> Current(base)
    {
      hide Resolve;
      if IsAbsolute(base) {
        AbsoluteResolve(base, workingDirectory);
      }
    }

    /**
     `find_file_by_name`: among the files below the directory that `base` leads to, the one with this name,
     ignoring case, that comes first by depth and then by path, however the maps are walked and whatever
     was looked up before.
     */
    method FindFileByName(base: string, name: string, order: Order) returns (r: Option<string>, ghost a: Option<Path>)
      requires Sound() && WalksAll(order)
      modifies `nameIndex, `origin
      ensures Sound() && (a.None? ==> r.None?)
      ensures a.Some? && old(Current(base)) ==> Found(root, Goal(base), a.value) && IsDirAt(root, a.value)
      ensures IsDirAt(root, Goal(base)) && old(Current(base)) ==> a == Some(Goal(base))
      ensures a.Some? && old(Current(base)) && base != "" && Readable(root, Goal(base), a.value) ==>
        match r
        case None => forall x :: !IsFileNamed(root, a.value, x, name)
        case Some(path) => exists x :: path == base + "/" + Join(x) && IsFirstFile(root, a.value, x, name)
    {
      hide IndexOk, LowerCase, Resolve, Lookup, PathLe, Join, NamesOk, View, FileMatch, CandidatesOk, CacheOk,
        WalksAll, Found, Readable, IsDirAt, DeadEnd, ComesFirst, SameButCase;
      ghost var known := base != "" && Current(base);
      var candidates, dir := CandidatesForName(base, name, order);
      a := dir;
      known := known && a.Some? && Readable(root, Goal(base), a.value);
      if known {
        FoundNames(root, Goal(base), a.value);
      }
      var list := if candidates.Some? then candidates.value else [];
      for i := 0 to |list|
        invariant Sound()
        invariant known ==> forall j, y :: 0 <= j < i && FileMatch(root, a.value, y, name) ==> list[j] != Join(y)
      {
        var full := base + "/" + list[i];
        var isFile, at := IsFileAt(full);
        ghost var x := [];
        if known {
          x := CandidatePath(root, base, workingDirectory, a.value, name, list, i);
          FoundIsIt(root, Goal(full), at, a.value + x);
        }
        if isFile {
          if known {
            FirstFileIsLeast(root, a.value, Lookup(root, a.value).value, name, list, i, x);
            LeastMatchMeans(root, a.value, x, name);
          }
          return Some(full), a;
        }
        if known {
          NotThisOne(root, a.value, name, x);
        }
      }
      if known {
        NoCandidateNoFile(root, a.value, Lookup(root, a.value).value, name, list);
        FileMatchMeans(root, a.value, name);
      }
      r := None;
    }
  }
}
