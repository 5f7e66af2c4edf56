/**
 The operations of the guest file system on resolved paths (src/fs.rs), each changing the tree and the
 host together, and what they keep: no host operation fails where the tree says that it cannot.
 */
module Vfs {
  import opened Common
  import opened FileTree
  import opened NodeLookup
  import opened HostMirror

  datatype FsError =
    | AccessDenied | AlreadyExist | DirectoryNotEmpty | DoesNotExist
    | InvalidParentDir | NonexistentParentDir | ReadonlyParentDir | Failed

  /** `Panic`: an unwrap or `handle_open_err` of the source fails. */
  datatype Outcome = Changed(root: Node, host: Host) | Refused(error: FsError) | Panic

  /** `lookup_parent_node`: the parent need not be a directory. */
  function LookupParent(root: Node, q: Path): Option<Node> {
    if q == [] then None else Lookup(root, Parent(q))
  }

  /** `create_dir` */
  function CreateDir(root: Node, host: Host, q: Path): Outcome {
    match LookupParent(root, q)
    case None => Refused(NonexistentParentDir)
    case Some(File(_, _)) => Refused(InvalidParentDir)
    case Some(Directory(children, writeable)) =>
      if Name(q) in children then Refused(AlreadyExist)
      else if writeable.None? then Refused(ReadonlyParentDir)
      else
        var p := writeable.value + [Name(q)];
        match HostCreateDir(host, p)
        case HostErr => Panic
        case AlreadyThere => Changed(Insert(root, q, Directory(map[], Some(p))), host)
        case HostOk(host2) => Changed(Insert(root, q, Directory(map[], Some(p))), host2)
  }

  /** The last step of `open_with_options`: what was opened. */
  datatype Handle = HostHandle(path: Path) | IpaHandle(ref: nat) | ResourceHandle(name: string) | DirectoryHandle

  datatype Opened = Opened(root: Node, host: Host, handle: Handle) | NotOpened | OpenPanic

  /** Opens that create or truncate get write access if they have none. */
  function Forced(mode: Mode): Mode {
    if (mode.truncate || mode.create) && !mode.write && !mode.append then mode.(write := true) else mode
  }

  function OpenExisting(root: Node, host: Host, n: Node, mode: Mode, contents: nat): Opened {
    match n
    case Directory(_, _) => if mode.write then NotOpened else Opened(root, host, DirectoryHandle)
    case File(location, canWrite) =>
      if !canWrite && (mode.append || mode.write) then NotOpened
      else match location
        case HostFile(p) =>
          (match HostOpen(host, p, mode.(create := false), contents)
           case HostOk(host2) => Opened(root, host2, HostHandle(p))
           case _ => OpenPanic)
        case IpaFile(r) => if canWrite then OpenPanic else Opened(root, host, IpaHandle(r))
        case ResourceFile(name) => if canWrite then OpenPanic else Opened(root, host, ResourceHandle(name))
  }

  /** `open_with_options`; a file that is created or truncated gets the contents `contents`. */
  function Open(root: Node, host: Host, q: Path, asked: Mode, contents: nat): Opened {
    var mode := Forced(asked);
    match LookupParent(root, q)
    case None => NotOpened
    case Some(File(_, _)) => NotOpened
    case Some(Directory(children, writeable)) =>
      if Name(q) in children then OpenExisting(root, host, children[Name(q)], mode, contents)
      else if !mode.create || writeable.None? then NotOpened
      else
        var p := writeable.value + [Name(q)];
        match HostOpen(host, p, mode, contents)
        case HostOk(host2) => Opened(Insert(root, q, File(HostFile(p), true)), host2, HostHandle(p))
        case _ => OpenPanic
  }

  /** `remove` */
  function RemoveNode(root: Node, host: Host, q: Path): Outcome {
    match LookupParent(root, q)
    case None => Refused(NonexistentParentDir)
    case Some(File(_, _)) => Refused(InvalidParentDir)
    case Some(Directory(children, writeable)) =>
      if writeable.None? then Refused(ReadonlyParentDir)
      else if Name(q) !in children then Refused(DoesNotExist)
      else match children[Name(q)]
        case File(location, canWrite) =>
          if !canWrite then Refused(AccessDenied)
          else if !location.HostFile? then Panic
          else (match HostRemoveFile(host, location.path) case HostOk(host2) => Changed(Remove(root, q),
            host2) case _ => Panic)
        case Directory(inner, own) =>
          if inner != map[] then Refused(DirectoryNotEmpty)
          else if own.None? then Refused(AccessDenied)
          else (match HostRemoveDir(host, own.value) case HostOk(host2) => Changed(Remove(root, q),
            host2) case _ => Panic)
  }

  /** The host path of a node that may be renamed. */
  function RenameSource(n: Node): Option<Path> {
    match n
    case File(HostFile(p), true) => Some(p)
    case Directory(_, Some(p)) => Some(p)
    case _ => None
  }

  /** `rename` of the node `n`, which a lookup that may ignore case found for `q`, to `r`. */
  function RenameFound(root: Node, host: Host, n: Node, q: Path, r: Path): Outcome {
    match (RenameSource(n), LookupParent(root, r))
    case (Some(from), Some(Directory(_, Some(dir)))) =>
      (match HostRename(host, from, dir + [Name(r)])
       case HostOk(host2) => FinishRename(root, host2, q, r, dir + [Name(r)])
       case _ => Refused(Failed))
    case _ => Refused(Failed)
  }

  /** The tree's part of a rename, once the host has done its own; here the node has to be at `q` exactly. */
  function FinishRename(root: Node, host2: Host, q: Path, r: Path, to: Path): Outcome {
    if !HasParent(root, q) || Lookup(root, q).None? || !HasParent(Remove(root, q), r) then Panic
    else Changed(Insert(Remove(root, q), r, Rebase(Lookup(root, q).value, to)), host2)
  }

  /** `rename` of what is at `q` exactly. */
  function Rename(root: Node, host: Host, q: Path, r: Path): Outcome {
    match Lookup(root, q)
    case None => Refused(Failed)
    case Some(n) => RenameFound(root, host, n, q, r)
  }

  /**
   `rename` of what the lookup of `q` finds: `q` itself or, if that is not there, a node that differs in case.
   Where there are several of them any may be found, so `found` is given; if the lookup does not find that,
   nothing happens.
   */
  function RenameAnyCase(root: Node, host: Host, q: Path, r: Path, found: Path): Outcome {
    if Found(root, q, found) then RenameFound(root, host, Lookup(root, found).value, q, r) else Refused(Failed)
  }

  // ----- creating

  lemma {:induction false} LookupChild(root: Node, q: Path)
    requires HasParent(root, q)
    ensures View(root, Parent(q)) == Some(DirInfo(Lookup(root, Parent(q)).value.writeable))
    ensures var children := Lookup(root, Parent(q)).value.children;
      Lookup(root, q) == if Name(q) in children then Some(children[Name(q)]) else None
  {
    LookupAppends(root, Parent(q), [Name(q)]);
    ParentName(q);
    var n := Lookup(root, Parent(q)).value;
    assert [Name(q)][1..] == [];
    assert Lookup(n, [Name(q)]) == if Name(q) in n.children then Some(n.children[Name(q)]) else None;
  }

  /** `root2` is `root` with a leaf `i` at `q`. */
  ghost predicate Grown(root: Node, root2: Node, q: Path, i: Info) {
    root2.Directory? && forall s {:trigger View(root2, s)} ::
      View(root2, s) == if s == q then Some(i) else View(root, s)
  }

  lemma {:induction false} InsertLeafViews(root: Node, q: Path, c: Node)
    requires HasParent(root, q) && (c.Directory? ==> c.children == map[]) && Lookup(root, q).None?
    ensures Grown(root, Insert(root, q, c), q, InfoOf(c))
  {
    forall s
      ensures View(Insert(root, q, c), s) == if s == q then Some(InfoOf(c)) else View(root, s)
    {
      ViewInsert(root, q, c, s);
      if q <= s && s != q {
        assert View(root, s).None? by {
          if View(root, s).Some? {
            ViewPrefix(root, q, s);
          }
        }
      } else if s == q {
        assert s[|q|..] == [];
      }
    }
  }

  /** There is nothing at `q`, but a writeable directory to create it in. */
  predicate Vacant(root: Node, q: Path) {
    && q != [] && View(root, q).None?
    && View(root, Parent(q)).Some? && View(root, Parent(q)).value.DirInfo?
    && View(root, Parent(q)).value.writeable.Some?
  }

  /** Where on the host something created at `q` goes. */
  function Place(root: Node, q: Path): Path
    requires Vacant(root, q)
  {
    View(root, Parent(q)).value.writeable.value + [Name(q)]
  }

  predicate IsFile(host: Host, p: Path) {
    p in host && host[p].FileEntry?
  }

  lemma {:induction false} VacantDirectory(root: Node, host: Host, q: Path)
    requires Mirror(root, host) && Vacant(root, q)
    ensures HasParent(root, q) && Lookup(root, q).None? && Place(root, q) != [] && IsDir(host, Parent(Place(root, q)))
    ensures Lookup(root, Parent(q)).value.writeable == Some(Parent(Place(root, q))) && Name(Place(root, q)) == Name(q)
    ensures Name(q) !in Lookup(root, Parent(q)).value.children
  {
    LookupChild(root, q);
    MirrorAt(root, host, Parent(q));
    ParentOf(View(root, Parent(q)).value.writeable.value, Name(q));
  }

  /** A leaf of the kind that the host has at its place, be it new or left over, keeps the mirror. */
  lemma {:induction false} GrowingKeepsMirror(root: Node, host: Host, q: Path, i: Info, e: Entry)
    requires Mirror(root, host) && Vacant(root, q) && HostOf(i) == Some(Place(root, q)) && (i.DirInfo? <==> e.DirEntry?)
    requires Place(root, q) in host ==> (host[Place(root, q)].DirEntry? <==> e.DirEntry?)
    ensures forall root2 {:trigger Grown(root, root2, q, i)} :: Grown(root, root2, q, i) ==>
      Mirror(root2, host[Place(root, q) := e])
  {
    VacantDirectory(root, host, q);
    hide Mirror, View;
    var h := Parent(Place(root, q));
    ParentName(Place(root, q));
    forall root2 | Grown(root, root2, q, i)
      ensures Mirror(root2, host[Place(root, q) := e])
    {
      AddingLeafKeepsMirror(root, host, root2, host[Place(root, q) := e], q, h, i, e);
    }
  }

  lemma {:induction false} UnbackedBreaksMirror(root2: Node, host: Host, q: Path)
    requires View(root2, q).Some? && !Backed(host, View(root2, q).value)
    ensures !Mirror(root2, host)
  {
  }

  /** What creating a directory means. */
  ghost predicate DirectoryCreated(root: Node, host: Host, root2: Node, host2: Host, q: Path)
    requires Vacant(root, q)
  {
    && Grown(root, root2, q, DirInfo(Some(Place(root, q))))
    && host2 == if Place(root, q) in host then host else host[Place(root, q) := DirEntry]
  }

  /**
   Creating a directory never fails on the host, and succeeds exactly in a writeable directory that has no
   such name. It keeps the mirror unless the host has a file of that name, left over or of another node.
   */
  lemma {:induction false} CreateDirKeepsMirror(root: Node, host: Host, q: Path)
    requires Mirror(root, host)
    ensures var o := CreateDir(root, host, q);
      && !o.Panic? && (o.Changed? <==> Vacant(root, q))
      && (o.Changed? ==> DirectoryCreated(root, host, o.root, o.host, q))
      && (o.Changed? ==> (Mirror(o.root, o.host) <==> !IsFile(host, Place(root, q))))
      && (q != [] && View(root, q).Some? ==> o == Refused(AlreadyExist))
  {
    hide Mirror;
    if q != [] && View(root, q).Some? {
      ViewParent(root, q);
    }
    if Vacant(root, q) {
      VacantDirectory(root, host, q);
      CreatingDirectory(root, host, q);
    } else if HasParent(root, q) {
      LookupChild(root, q);
    }
  }

  lemma {:induction false} CreatingDirectory(root: Node, host: Host, q: Path)
    requires Mirror(root, host) && Vacant(root, q)
    ensures var o := CreateDir(root, host, q);
      && o.Changed? && DirectoryCreated(root, host, o.root, o.host, q)
      && (Mirror(o.root, o.host) <==> !IsFile(host, Place(root, q)))
  {
    VacantDirectory(root, host, q);
    hide Mirror, View;
    var p := Place(root, q);
    var i := DirInfo(Some(p));
    ParentName(p);
    InsertLeafViews(root, q, Directory(map[], Some(p)));
    var o := CreateDir(root, host, q);
    assert Grown(root, o.root, q, i);
    if IsFile(host, p) {
      UnbackedBreaksMirror(o.root, o.host, q);
    } else {
      GrowingKeepsMirror(root, host, q, i, DirEntry);
      assert p in host ==> host[p := DirEntry] == host;
    }
  }

  /** Why a directory cannot be created at `q`; nothing if it can. */
  function CreateRefusal(root: Node, q: Path): Option<FsError> {
    if q == [] then Some(NonexistentParentDir)
    else match View(root, Parent(q))
      case None => Some(NonexistentParentDir)
      case Some(FileInfo(_, _)) => Some(InvalidParentDir)
      case Some(DirInfo(writeable)) =>
        if View(root, q).Some? then Some(AlreadyExist)
        else if writeable.None? then Some(ReadonlyParentDir)
        else None
  }

  /** Creating a directory is refused for just that reason, in any tree. */
  lemma {:induction false} CreateDirRefuses(root: Node, host: Host, q: Path)
    ensures match CreateRefusal(root, q)
      case Some(e) => CreateDir(root, host, q) == Refused(e)
      case None => !CreateDir(root, host, q).Refused?
  {
    if HasParent(root, q) {
      LookupChild(root, q);
    }
  }

  // ----- opening

  /** Overwriting a host file in place. */
  lemma {:induction false} OverwritingKeepsMirror(root: Node, host: Host, p: Path, data: nat)
    requires Mirror(root, host) && IsFile(host, p)
    ensures Mirror(root, host[p := FileEntry(data)])
  {
    var host2 := host[p := FileEntry(data)];
    forall k
      ensures Placed(host2, k)
    {
      assert Placed(host, k);
    }
    forall s | View(root, s).Some?
      ensures Backed(host2, View(root, s).value)
    {
      MirrorAt(root, host, s);
    }
  }

  /**
   Opening fails on the host: with an access mode that the host does not take, or to create a file where
   the host has a directory that has no node there.
   */
  predicate OpenFails(root: Node, host: Host, q: Path, mode: Mode) {
    AsksHost(root, q, mode) && (!mode.Valid() || (Vacant(root, q) && IsDir(host, Place(root, q))))
  }

  /** Opening gets as far as asking the host for a file. */
  predicate AsksHost(root: Node, q: Path, mode: Mode) {
    match View(root, q)
    case Some(FileInfo(HostFile(_), canWrite)) => canWrite || !(mode.append || mode.write)
    case None => mode.create && Vacant(root, q)
    case _ => false
  }

  /** Whoever asks to write, append, truncate or create has to be let write. */
  predicate AsksToWrite(asked: Mode) {
    asked.write || asked.append || asked.truncate || asked.create
  }

  /** The host does not take opens without any access, nor ones that append and truncate. */
  predicate HostTakes(asked: Mode) {
    (asked.read || AsksToWrite(asked)) && !(asked.append && asked.truncate)
  }

  lemma {:induction false} ForcedMeans(asked: Mode)
    ensures (Forced(asked).write || Forced(asked).append <==> AsksToWrite(asked))
      && (Forced(asked).Valid() <==> HostTakes(asked))
      && Forced(asked).truncate == asked.truncate && Forced(asked).create == asked.create
      && (Forced(asked).write <==> asked.write || ((asked.truncate || asked.create) && !asked.append))
  {
  }

  /**
   When an existing node is opened: a directory unless it would be written, other than by appending; a file unless it
   would be written and must not be.
   */
  predicate MayOpen(i: Info, asked: Mode) {
    match i
    case DirInfo(_) => !(asked.write || ((asked.truncate || asked.create) && !asked.append))
    case FileInfo(_, canWrite) => canWrite || !AsksToWrite(asked)
  }

  /**
   What opening an existing node means: the tree is as it was; the handle is for what the node refers to; and the
   host is as it was too, but for a host file that is truncated.
   */
  ghost predicate ExistingOpened(root: Node, host: Host, q: Path, asked: Mode, contents: nat, o: Opened)
    requires o.Opened?
  {
    && o.root == root && View(root, q).Some?
    && match View(root, q).value
       case FileInfo(HostFile(p), _) =>
         && o.handle == HostHandle(p) && IsFile(host, p)
         && o.host == if asked.truncate then host[p := FileEntry(contents)] else host
       case FileInfo(IpaFile(r), _) => o.handle == IpaHandle(r) && o.host == host
       case FileInfo(ResourceFile(name), _) => o.handle == ResourceHandle(name) && o.host == host
       case DirInfo(_) => o.handle == DirectoryHandle && o.host == host
  }

  lemma {:induction false} SameEntries(root: Node, host: Host, q: Path, asked: Mode, contents: nat, o: Opened)
    requires o.Opened? && ExistingOpened(root, host, q, asked, contents, o)
    ensures o.host.Keys == host.Keys
  {
  }

  /** What creating a file means: one left over from an earlier run is taken over, and emptied only if asked. */
  ghost predicate FileCreated(root: Node, host: Host, q: Path, mode: Mode, contents: nat, o: Opened)
    requires o.Opened? && Vacant(root, q)
  {
    var p := Place(root, q);
    && Grown(root, o.root, q, FileInfo(HostFile(p), true)) && o.handle == HostHandle(p) && IsFile(o.host, p)
    && o.host == if p in host && !mode.truncate then host else host[p := FileEntry(contents)]
  }

  lemma {:induction false} OpenExistingOk(root: Node, host: Host, q: Path, asked: Mode, contents: nat)
    requires Mirror(root, host) && Lookup(root, q).Some? && q != []
    ensures var o := OpenExisting(root, host, Lookup(root, q).value, Forced(asked), contents);
      && (o.OpenPanic? <==> OpenFails(root, host, q, Forced(asked)))
      && (o.NotOpened? <==> !MayOpen(View(root, q).value, asked))
      && (o.Opened? ==> ExistingOpened(root, host, q, asked, contents, o) && Mirror(root, o.host))
  {
    ForcedMeans(asked);
    hide Mirror, Lookup, Forced;
    MirrorAt(root, host, q);
    var n := Lookup(root, q).value;
    assert View(root, q) == Some(InfoOf(n));
    match n
    case File(HostFile(p), _) =>
      OverwritingKeepsMirror(root, host, p, contents);
    case File(IpaFile(_), _) =>
    case File(ResourceFile(_), _) =>
    case Directory(_, _) =>
  }

  lemma {:induction false} CreatingFile(root: Node, host: Host, q: Path, asked: Mode, contents: nat)
    requires Mirror(root, host) && Vacant(root, q) && asked.create
    ensures var o := Open(root, host, q, asked, contents);
      && (o.OpenPanic? <==> !Forced(asked).Valid() || IsDir(host, Place(root, q)))
      && (o.Opened? <==> !o.OpenPanic?)
      && (o.Opened? ==> FileCreated(root, host, q, asked, contents, o) && Mirror(o.root, o.host))
  {
    VacantDirectory(root, host, q);
    hide Mirror, View;
    var p := Place(root, q);
    var i := FileInfo(HostFile(p), true);
    ParentName(p);
    InsertLeafViews(root, q, File(HostFile(p), true));
    var o := Open(root, host, q, asked, contents);
    if o.Opened? {
      assert Grown(root, o.root, q, i);
      GrowingKeepsMirror(root, host, q, i, o.host[p]);
      assert o.host == host[p := o.host[p]];
    }
  }

  /** Opening fails on the host, said without the mode that the host is given. */
  predicate OpenFailsFor(root: Node, host: Host, q: Path, asked: Mode) {
    match View(root, q)
    case Some(FileInfo(HostFile(_), canWrite)) => MayOpen(View(root, q).value, asked) && !HostTakes(asked)
    case Some(_) => false
    case None => asked.create && Vacant(root, q) && (!HostTakes(asked) || IsDir(host, Place(root, q)))
  }

  /**
   What `handle_open_err` rests on: opening fails on the host exactly for modes that this does not take, and where
   a file is to be created and the host has a directory. Otherwise it is refused exactly if what is there must not
   be opened so, or nothing is there and nothing may be created; else it gives what is there or creates the file. It
   keeps the mirror.
   */
  lemma {:induction false} OpenKeepsMirror(root: Node, host: Host, q: Path, asked: Mode, contents: nat)
    requires Mirror(root, host)
    ensures var o := Open(root, host, q, asked, contents);
      && (o.OpenPanic? <==> OpenFails(root, host, q, Forced(asked)))
      && (OpenFails(root, host, q, Forced(asked)) <==> OpenFailsFor(root, host, q, asked))
      && (o.NotOpened? <==> q == [] || if View(root, q).Some? then !MayOpen(View(root, q).value, asked)
            else !(asked.create && Vacant(root, q)))
      && (o.Opened? ==> Mirror(o.root, o.host))
      && (o.Opened? ==>
        if Vacant(root, q) then FileCreated(root, host, q, asked, contents, o)
        else ExistingOpened(root, host, q, asked, contents, o))
  {
    hide Mirror;
    ForcedMeans(asked);
    if Vacant(root, q) {
      VacantDirectory(root, host, q);
      if asked.create {
        CreatingFile(root, host, q, asked, contents);
      }
    } else if HasParent(root, q) {
      LookupChild(root, q);
      if Name(q) in Lookup(root, Parent(q)).value.children {
        OpenExistingOk(root, host, q, asked, contents);
      }
    } else if q == [] {
      MirrorAt(root, host, q);
    } else if View(root, q).Some? {
      ViewParent(root, q);
    }
  }

  // ----- removing

  /** `remove` may go ahead: the node is a file that can be written or a directory without children. */
  ghost predicate Removable(root: Node, q: Path) {
    && q != [] && View(root, q).Some?
    && View(root, Parent(q)).Some? && View(root, Parent(q)).value.DirInfo?
    && View(root, Parent(q)).value.writeable.Some?
    && match View(root, q).value
       case FileInfo(_, canWrite) => canWrite
       case DirInfo(writeable) => writeable.Some? && forall name {:trigger View(root, q + [name])} ::
         View(root, q + [name]).None?
  }

  /** Why what is at `q` cannot be removed; nothing if it can. */
  ghost function RemoveRefusal(root: Node, q: Path): Option<FsError> {
    if q == [] then Some(NonexistentParentDir)
    else match View(root, Parent(q))
      case None => Some(NonexistentParentDir)
      case Some(FileInfo(_, _)) => Some(InvalidParentDir)
      case Some(DirInfo(None)) => Some(ReadonlyParentDir)
      case Some(DirInfo(Some(_))) =>
        match View(root, q)
        case None => Some(DoesNotExist)
        case Some(FileInfo(_, canWrite)) => if canWrite then None else Some(AccessDenied)
        case Some(DirInfo(writeable)) =>
          if exists name {:trigger View(root, q + [name])} :: View(root, q + [name]).Some? then Some(DirectoryNotEmpty)
          else if writeable.None? then Some(AccessDenied)
          else None
  }

  /** Removing is refused for just that reason, in any tree. */
  lemma {:induction false} RemoveRefuses(root: Node, host: Host, q: Path)
    ensures match RemoveRefusal(root, q)
      case Some(e) => RemoveNode(root, host, q) == Refused(e)
      case None => !RemoveNode(root, host, q).Refused?
  {
    if HasParent(root, q) {
      LookupChild(root, q);
      if Lookup(root, q).Some? && Lookup(root, q).value.Directory? {
        ChildNodes(root, q);
      }
    }
  }

  /** The host has something under `p`. */
  ghost predicate HasMore(host: Host, p: Path) {
    exists k :: k in host && p <= k && k != p
  }

  /**
   In any tree, what may be removed is removed exactly if the host has it, as what it is for the guest and no
   more.
   */
  lemma {:induction false} RemovalNeedsHost(root: Node, host: Host, q: Path)
    requires RemoveRefusal(root, q).None?
    ensures var o := RemoveNode(root, host, q); var i := View(root, q);
      && i.Some? && HasParent(root, q) && (o.Panic? <==> !o.Changed?)
      && (o.Changed? <==>
            && HostOf(i.value).Some? && var p := HostOf(i.value).value;
            && p in host && (i.value.DirInfo? <==> IsDir(host, p)) && !(IsDir(host, p) && HasMore(host, p)))
      && (o.Changed? ==> o.host == host - {HostOf(i.value).value} && o.root == Remove(root, q))
  {
    LookupChild(root, q);
    if Lookup(root, q).Some? && Lookup(root, q).value.Directory? {
      ChildNodes(root, q);
    }
  }

  /**
   In any tree, a node that may be opened so is opened exactly if it is a directory, a file that the host has, be it
   as a directory and then only for reading, or a file of the bundle or a resource that cannot be written.
   */
  lemma {:induction false} OpeningNeedsHost(root: Node, host: Host, q: Path, asked: Mode, contents: nat)
    requires q != [] && View(root, q).Some? && MayOpen(View(root, q).value, asked)
    ensures var o := Open(root, host, q, asked, contents);
      && (o.OpenPanic? <==> !o.Opened?)
      && (o.Opened? <==> match View(root, q).value
            case DirInfo(_) => true
            case FileInfo(HostFile(p), _) =>
              HostTakes(asked) && p in host && (IsFile(host, p) || !AsksToWrite(asked))
            case FileInfo(_, canWrite) => !canWrite)
  {
    ForcedMeans(asked);
    hide Forced;
    ViewParent(root, q);
    LookupChild(root, q);
  }

  /**
   In any tree, what may be created is created exactly if the host has the directory for it, or has it already: any
   entry where a directory is made, a file where a file is opened with a mode that the host takes.
   */
  lemma {:induction false} CreationNeedsHost(root: Node, host: Host, q: Path, asked: Mode, contents: nat)
    requires Vacant(root, q)
    ensures var p := Place(root, q); var there := IsDir(host, Parent(p));
      && (CreateDir(root, host, q).Changed? <==> p in host || there)
      && (asked.create ==>
            (Open(root, host, q, asked, contents).Opened? <==>
              HostTakes(asked) && if p in host then IsFile(host, p) else there))
      && (!asked.create ==> Open(root, host, q, asked, contents).NotOpened?)
  {
    ForcedMeans(asked);
    LookupChild(root, q);
    ParentOf(View(root, Parent(q)).value.writeable.value, Name(q));
  }

  /** What removing one node means. */
  ghost predicate Removed(root: Node, host: Host, root2: Node, host2: Host, q: Path) {
    && (forall s {:trigger View(root2, s)} :: View(root2, s) == if q <= s then None else View(root, s))
    && View(root, q).Some? && HostOf(View(root, q).value).Some? && HostOf(View(root, q).value).value in host
    && host2 == host - {HostOf(View(root, q).value).value}
  }

  lemma {:induction false} RemovingLeaf(root: Node, host: Host, q: Path, p: Path)
    requires Mirror(root, host) && HasParent(root, q) && Lookup(root, q).Some? && HostOf(View(root, q).value) == Some(p)
    requires !HasMore(host, p)
    ensures Removed(root, host, Remove(root, q), host - {p}, q)
    ensures Mirror(Remove(root, q), host - {p}) <==> Unshared(root, q, p)
  {
    MirrorAt(root, host, q);
    hide Mirror;
    var root2 := Remove(root, q);
    forall s
      ensures View(root2, s) == if q <= s then None else View(root, s)
    {
      ViewRemove(root, q, s);
    }
    RemovalKeepsMirrorIffUnshared(root, host, root2, host - {p}, q, p);
  }

  /** A directory has no children exactly if it has no child nodes. */
  lemma {:induction false} ChildNodes(root: Node, q: Path)
    requires Lookup(root, q).Some? && Lookup(root, q).value.Directory?
    ensures Lookup(root, q).value.children == map[] <==>
      forall name {:trigger View(root, q + [name])} :: View(root, q + [name]).None?
  {
    var n := Lookup(root, q).value;
    forall name
      ensures View(root, q + [name]).Some? <==> name in n.children
    {
      LookupAppends(root, q, [name]);
      assert [name][1..] == [];
    }
    if n.children != map[] {
      var name :| name in n.children;
      assert View(root, q + [name]).Some?;
    }
  }

  /**
   Removing goes ahead for what is removable, and then fails exactly if the host has something more in the
   directory. Otherwise the node, its host entry and nothing else are gone, and the mirror holds exactly if
   no other node has that host path.
   */
  lemma {:induction false} RemoveKeepsMirror(root: Node, host: Host, q: Path)
    requires Mirror(root, host)
    ensures var o := RemoveNode(root, host, q);
      && (o.Refused? <==> !Removable(root, q))
      && (o.Panic? <==> Removable(root, q) && HasMore(host, HostOf(View(root, q).value).value))
      && (o.Changed? ==> Removed(root, host, o.root, o.host, q))
      && (o.Changed? ==> (Mirror(o.root, o.host) <==> Unshared(root, q, HostOf(View(root, q).value).value)))
  {
    MirrorAt(root, host, q);
    hide Mirror;
    if q != [] && View(root, q).Some? {
      ViewParent(root, q);
    }
    if HasParent(root, q) {
      LookupChild(root, q);
      var d := Lookup(root, Parent(q)).value;
      if Name(q) in d.children && d.writeable.Some? {
        var n := d.children[Name(q)];
        if n.Directory? {
          ChildNodes(root, q);
        }
        if Removable(root, q) {
          RemovingRemovable(root, host, q);
        }
      }
    }
  }

  lemma {:induction false} RemovingRemovable(root: Node, host: Host, q: Path)
    requires Mirror(root, host) && Removable(root, q) && HasParent(root, q)
    ensures HostOf(View(root, q).value).Some?
    ensures var o := RemoveNode(root, host, q); var p := HostOf(View(root, q).value).value;
      if HasMore(host, p) then o.Panic?
      else
        && o.Changed? && Removed(root, host, o.root, o.host, q)
        && (Mirror(o.root, o.host) <==> Unshared(root, q, p))
  {
    MirrorAt(root, host, q);
    LookupChild(root, q);
    var p := HostOf(View(root, q).value).value;
    if Lookup(root, q).value.Directory? {
      ChildNodes(root, q);
    } else if HasMore(host, p) {
      var k :| k in host && p <= k && k != p;
      NothingUnderFile(host, p, k);
    }
    hide Mirror;
    if !HasMore(host, p) {
      RemovingLeaf(root, host, q, p);
    }
  }

  // ----- renaming

  function MoveOf(root: Node, host: Host, q: Path, r: Path): Move
    requires View(root, q).Some? && HostOf(View(root, q).value).Some? && r != []
    requires View(root, Parent(r)).Some? && View(root, Parent(r)).value.DirInfo?
      && View(root, Parent(r)).value.writeable.Some?
  {
    var dir := View(root, Parent(r)).value.writeable.value;
    Move(root, host, q, r, HostOf(View(root, q).value).value, dir + [Name(r)], dir)
  }

  /** The host has been asked to rename the node `n` to `r`, and agreed. */
  predicate HostAgreesFor(root: Node, host: Host, n: Node, r: Path) {
    && RenameSource(n).Some? && r != []
    && View(root, Parent(r)).Some? && View(root, Parent(r)).value.DirInfo?
    && View(root, Parent(r)).value.writeable.Some?
    && HostRename(host, RenameSource(n).value, View(root, Parent(r)).value.writeable.value + [Name(r)]).HostOk?
  }

  predicate HostAgrees(root: Node, host: Host, q: Path, r: Path) {
    Lookup(root, q).Some? && HostAgreesFor(root, host, Lookup(root, q).value, r)
  }

  /**
   When a rename goes through to the tree: the source is a host file that can be written or a writeable directory,
   the target's parent is a writeable directory, and the host can rename the one path to the other: nowhere, or, into
   a directory and not into itself, to where nothing is, a file over a file or a directory over an empty one.
   */
  ghost predicate CanRename(root: Node, host: Host, i: Info, r: Path) {
    && (i.DirInfo? || i.canWrite) && HostOf(i).Some? && r != []
    && match View(root, Parent(r))
       case Some(DirInfo(Some(dir))) => HostCanRename(host, HostOf(i).value, dir + [Name(r)])
       case _ => false
  }

  ghost predicate HostCanRename(host: Host, from: Path, to: Path) {
    && from in host
    && (from == to
        || (!(from <= to) && to != [] && IsDir(host, Parent(to))
            && (to !in host
                || (host[from].FileEntry? && host[to].FileEntry?)
                || (host[from].DirEntry? && host[to].DirEntry? && !HasMore(host, to)))))
  }

  lemma {:induction false} AgreesIffCanRename(root: Node, host: Host, q: Path, r: Path)
    requires Lookup(root, q).Some?
    ensures HostAgrees(root, host, q, r) <==> CanRename(root, host, View(root, q).value, r)
  {
  }

  /** The target lies inside what is renamed. */
  predicate IntoItself(q: Path, r: Path) {
    q <= r && q != r
  }

  /** No node keeps a host path that the rename takes away. */
  ghost predicate LeavesNobody(root: Node, host: Host, q: Path, r: Path)
    requires HostAgrees(root, host, q, r)
  {
    NobodyLeft(MoveOf(root, host, q, r))
  }

  lemma {:induction false} SourceIsHost(root: Node, q: Path)
    requires Lookup(root, q).Some? && RenameSource(Lookup(root, q).value).Some?
    ensures View(root, q).Some? && HostOf(View(root, q).value) == RenameSource(Lookup(root, q).value)
  {
  }

  lemma {:induction false} AgreedIsMovable(root: Node, host: Host, q: Path, r: Path)
    requires Mirror(root, host) && HostAgrees(root, host, q, r) && !IntoItself(q, r)
    ensures View(root, q).Some? && HostOf(View(root, q).value).Some? && Movable(MoveOf(root, host, q, r))
    ensures var m := MoveOf(root, host, q, r); HostRename(host, m.from, m.to) == HostOk(HostAfter(m))
    ensures MovedNode(MoveOf(root, host, q, r)) == Lookup(root, q).value
  {
    SourceIsHost(root, q);
    var m := MoveOf(root, host, q, r);
    hide Mirror, View, Lookup, Moved;
    MirrorAt(root, host, q);
    if m.from != m.to && IsFile(host, m.to) {
      forall k | k in host && m.to <= k
        ensures k == m.to
      {
        NothingUnderFile(host, m.to, k);
      }
    }
  }

  lemma {:induction false} RenameViews(root: Node, host: Host, q: Path, r: Path)
    requires Mirror(root, host) && HostAgrees(root, host, q, r) && !IntoItself(q, r)
    ensures View(root, q).Some? && HostOf(View(root, q).value).Some? && Rename(root, host, q, r).Changed?
    ensures var m := MoveOf(root, host, q, r); var o := Rename(root, host, q, r);
      o.host == HostAfter(m) && Rerooted(m, o.root)
  {
    AgreedIsMovable(root, host, q, r);
    SourceIsHost(root, q);
    hide Mirror, Moved, HostAfter;
    var m := MoveOf(root, host, q, r);
    var n := Lookup(root, q).value;
    assert q != [];
    ViewParent(root, q);
    var root1 := Remove(root, q);
    ViewRemove(root, q, Parent(r));
    assert !(q <= Parent(r)) by { PrefixOfParent(q, r); }
    assert HasParent(root1, r);
    var root2 := Insert(root1, r, Rebase(n, m.to));
    forall s
      ensures View(root2, s) == ViewMoved(m, s)
    {
      ViewInsert(root1, r, Rebase(n, m.to), s);
      ViewRemove(root, q, s);
      ViewRebase(n, m.to, s[if r <= s then |r| else 0..]);
    }
    assert root2.Directory? by { assert View(root2, []) == ViewMoved(m, []); }
  }

  /**
   A rename that the host agrees to moves the whole subtree and changes nothing that is neither in it nor
   at or under the target. It keeps the mirror exactly when the host carries along all that is reached in
   the subtree, as is so if nothing is mounted there, and no other node has a host path that goes.
   */
  lemma {:induction false} RenameKeepsMirrorIffCarried(root: Node, host: Host, q: Path, r: Path)
    requires Mirror(root, host) && HostAgrees(root, host, q, r) && !IntoItself(q, r)
    ensures var o := Rename(root, host, q, r); var from := RenameSource(Lookup(root, q).value).value;
      && o.Changed?
      && (Mirror(o.root, o.host) <==> Carried(host, Lookup(root, q).value, from) && LeavesNobody(root, host, q, r))
      && (MountFree(Lookup(root, q).value, from) ==> Carried(host, Lookup(root, q).value, from))
      && (forall s {:trigger View(o.root, s)} :: !(q <= s) && !(r <= s) ==> View(o.root, s) == View(root, s))
      && (forall s {:trigger View(o.root, s)} :: q <= s && !(r <= s) ==> View(o.root, s) == None)
  {
    RenameViews(root, host, q, r);
    AgreedIsMovable(root, host, q, r);
    SourceIsHost(root, q);
    hide Mirror, Moved, Movable, View, Lookup, Rename;
    var m := MoveOf(root, host, q, r);
    MoveKeepsMirrorIffCarried(m, Rename(root, host, q, r).root);
    if MountFree(Lookup(root, q).value, m.from) {
      MountFreeIsCarried(root, host, q, m.from);
    }
  }

  /** A rename that the host does not agree to, or is not asked for, is refused. */
  lemma {:induction false} RefusedUnlessAgreed(root: Node, host: Host, n: Node, q: Path, r: Path)
    requires !HostAgreesFor(root, host, n, r)
    ensures RenameFound(root, host, n, q, r) == Refused(Failed)
  {
  }

  /** What was found only by ignoring case is renamed on the host, and then an unwrap fails. */
  lemma {:induction false} RenameOtherCase(root: Node, host: Host, n: Node, q: Path, r: Path)
    requires Lookup(root, q).None?
    ensures RenameFound(root, host, n, q, r) == if HostAgreesFor(root, host, n, r) then Panic else Refused(Failed)
  {
  }

  /** A rename goes through only for what is there exactly. */
  lemma {:induction false} RenameAnyCaseIs(root: Node, host: Host, q: Path, r: Path, found: Path)
    ensures RenameAnyCase(root, host, q, r, found) ==
      if !Found(root, q, found) then Refused(Failed)
      else if found == q then Rename(root, host, q, r)
      else if HostAgrees(root, host, found, r) then Panic
      else Refused(Failed)
    ensures Found(root, q, found) ==> (found == q <==> Lookup(root, q).Some?) && Lookup(root, found).Some?
  {
    hide FinishRename;
    if Found(root, q, found) {
      FoundNames(root, q, found);
      if Lookup(root, q).Some? {
        FoundExactly(root, q, found);
      } else {
        RenameOtherCase(root, host, Lookup(root, found).value, q, r);
      }
    }
  }

  /** A node keeps its kind, whether it can be written and, unless it is on the host, its place; there that is `to`. */
  predicate Relocated(i: Info, i2: Info, to: Path) {
    match i
    case FileInfo(location, canWrite) =>
      i2.FileInfo? && i2.canWrite == canWrite
      && (if location.HostFile? then i2.location == HostFile(to) else i2.location == location)
    case DirInfo(writeable) => i2.DirInfo? && i2.writeable == if writeable.Some? then Some(to) else None
  }

  /**
   What lies below the source of a rename is found below the target, with its new place on the host if it was reached,
   and the host has moved what it has under the old path, and changed nothing else.
   */
  lemma {:induction false} RenameMovesNodes(root: Node, host: Host, q: Path, r: Path, x: Path, k: Path)
    requires Mirror(root, host) && HostAgrees(root, host, q, r) && !IntoItself(q, r)
    ensures var o := Rename(root, host, q, r); var i := View(root, q + x);
      && o.Changed? && View(root, q).Some? && HostOf(View(root, q).value).Some? && View(o.root, r + x).Some? == i.Some?
      && var from, to := HostOf(View(root, q).value).value, View(root, Parent(r)).value.writeable.value + [Name(r)];
      && (i.Some? ==>
            if Reached(Lookup(root, q).value, x) then Relocated(i.value, View(o.root, r + x).value, to + x)
            else View(o.root, r + x) == i)
      && (if to <= k then
            && (k in o.host <==> from + k[|to|..] in host)
            && (k in o.host ==> o.host[k] == host[from + k[|to|..]])
          else if from <= k then k !in o.host
          else (k in o.host <==> k in host) && (k in o.host ==> o.host[k] == host[k]))
  {
    RenameViews(root, host, q, r);
    AgreedIsMovable(root, host, q, r);
    SourceIsHost(root, q);
    hide Mirror, View, Lookup, Rename, Reached, HostAfter;
    var m := MoveOf(root, host, q, r);
    ViewBelow(m, x);
    assert r <= r + x && (r + x)[|r|..] == x;
    HostAfterAt(m, k);
  }

  /** Every host file of the moved subtree that lies where it belongs is found under the new path, with its contents. */
  lemma {:induction false} RenameMovesContents(root: Node, host: Host, q: Path, r: Path, x: Path)
    requires Mirror(root, host) && HostAgrees(root, host, q, r) && !IntoItself(q, r)
    requires var n := Lookup(root, q).value; Reached(n, x) && Joined(n, RenameSource(n).value, x)
    requires View(root, q + x).Some? && HostOf(View(root, q + x).value).Some?
    ensures var o := Rename(root, host, q, r);
      && o.Changed? && View(o.root, r + x).Some? && HostOf(View(o.root, r + x).value).Some?
      && var p := HostOf(View(root, q + x).value).value; var p2 := HostOf(View(o.root, r + x).value).value;
      && p in host && p2 in o.host && o.host[p2] == host[p]
  {
    RenameViews(root, host, q, r);
    AgreedIsMovable(root, host, q, r);
    SourceIsHost(root, q);
    hide Mirror, View, Lookup, Rename, Reached, HostAfter;
    var m := MoveOf(root, host, q, r);
    ViewBelow(m, x);
    MirrorAt(root, host, q + x);
    assert r <= r + x && (r + x)[|r|..] == x;
    assert (m.to + x)[|m.to|..] == x;
    HostAfterAt(m, m.to + x);
  }

  /** The node at `s`, below the target of a rename, that the rename loses. */
  predicate Overwritten(root: Node, q: Path, r: Path, s: Path) {
    r <= s && s != r && !(q <= s) && View(root, s).Some?
  }

  /** The node at `s` has not the host path of its directory with its own name: it is mounted or read-only. */
  predicate Mounted(root: Node, s: Path) {
    && s != [] && View(root, s).Some?
    && match View(root, Parent(s))
       case Some(DirInfo(Some(h))) => HostOf(View(root, s).value) != Some(h + [Name(s)])
       case _ => true
  }

  /** The path one step below `r` on the way to `s`. */
  function StepBelow(r: Path, s: Path): Path
    requires r <= s && r != s
  {
    PrefixSameLength(r, s);
    s[..|r| + 1]
  }

  /**
   What a rename to another host path overwrites. If the target is an ordinary node, it loses exactly what is
   at or under something mounted or read-only right below it; so it loses anything exactly if there is such a
   node. The host keeps all that is lost, but for what shared a host path that the rename moves or replaces.
   */
  lemma {:induction false} RenameOverwrites(root: Node, host: Host, q: Path, r: Path)
    requires Mirror(root, host) && HostAgrees(root, host, q, r) && !IntoItself(q, r)
    ensures var o := Rename(root, host, q, r); var to := View(root, Parent(r)).value.writeable.value + [Name(r)];
      var from := RenameSource(Lookup(root, q).value).value;
      && o.Changed?
      && (forall s :: Overwritten(root, q, r, s) && HostOf(View(root, s).value).Some? ==>
            var g := HostOf(View(root, s).value).value;
              g in host && (from == to || (g != to && !(from <= g)) ==> g in o.host && o.host[g] == host[g]))
      && (from != to && !Mounted(root, r) ==>
            forall s :: Overwritten(root, q, r, s) ==> Mounted(root, StepBelow(r, s)) && !(q <= StepBelow(r, s)))
      && (from != to && !Mounted(root, r) ==>
            ((exists s :: Overwritten(root, q, r, s)) <==>
              exists name :: Mounted(root, r + [name]) && !(q <= r + [name])))
  {
    RenameViews(root, host, q, r);
    AgreedIsMovable(root, host, q, r);
    SourceIsHost(root, q);
    hide Mirror, View, Lookup, Rename, HostAfter, Movable;
    var m := MoveOf(root, host, q, r);
    forall s | Overwritten(root, q, r, s) && HostOf(View(root, s).value).Some?
      ensures var g := HostOf(View(root, s).value).value;
        g in host && (m.from == m.to || (g != m.to && !(m.from <= g)) ==>
          g in HostAfter(m) && HostAfter(m)[g] == host[g])
    {
      OverwrittenOnHost(m, s);
    }
    if m.from != m.to && !Mounted(root, r) {
      forall s | Overwritten(root, q, r, s)
        ensures Mounted(root, StepBelow(r, s)) && !(q <= StepBelow(r, s))
      {
        OverwrittenIsMounted(m, s);
      }
      if s :| Overwritten(root, q, r, s) {
        var step := StepBelow(r, s);
        assert step == r + [s[|r|]];
      }
      forall name | Mounted(root, r + [name]) && !(q <= r + [name])
        ensures Overwritten(root, q, r, r + [name])
      {
      }
    }
  }

  lemma {:induction false} OverwrittenOnHost(m: Move, s: Path)
    requires Movable(m) && View(m.root, s).Some? && HostOf(View(m.root, s).value).Some?
    ensures var g := HostOf(View(m.root, s).value).value;
      g in m.host && (m.from == m.to || (g != m.to && !(m.from <= g)) ==>
        g in HostAfter(m) && HostAfter(m)[g] == m.host[g])
  {
    hide Mirror, View;
    var g := HostOf(View(m.root, s).value).value;
    MirrorAt(m.root, m.host, s);
    if m.from != m.to {
      HostAfterAt(m, g);
      if m.to <= g {
        NothingUnder(m.host, m.to, g);
      }
    }
  }

  /** An ordinary node below the target would have its host entry below the target's, where there is none. */
  lemma {:induction false} OverwrittenIsMounted(m: Move, s: Path)
    requires Movable(m) && Overwritten(m.root, m.q, m.r, s) && m.from != m.to && !Mounted(m.root, m.r)
    ensures Mounted(m.root, StepBelow(m.r, s)) && !(m.q <= StepBelow(m.r, s))
  {
    hide Mirror, View;
    var step := StepBelow(m.r, s);
    assert m.r <= step <= s && Parent(step) == m.r;
    ViewPrefixOf(m.root, step, s);
    ViewPrefixOf(m.root, m.r, s);
    PrefixTransitiveIf(m.q, step, s);
    MirrorAt(m.root, m.host, m.r);
    MirrorAt(m.root, m.host, step);
    assert HostOf(View(m.root, m.r).value) == Some(m.to);
  }

  lemma {:induction false} PrefixTransitiveIf(a: Path, b: Path, c: Path)
    requires b <= c
    ensures a <= b ==> a <= c
  {
  }

  /** If the host has the target, it is a file or an empty directory as the source is a file or a directory. */
  lemma {:induction false} RenameReplacesLikeByLike(root: Node, host: Host, q: Path, r: Path)
    requires Mirror(root, host) && HostAgrees(root, host, q, r) && q != r
    requires View(root, r).Some? && HostOf(View(root, r).value) ==
      Some(View(root, Parent(r)).value.writeable.value + [Name(r)])
    ensures View(root, r).value.DirInfo? <==> View(root, q).value.DirInfo?
  {
    SourceIsHost(root, q);
    hide View, Lookup, Mirror;
    MirrorAt(root, host, q);
    MirrorAt(root, host, r);
  }

  /**
   Renaming a directory into itself is refused, unless the host sees no problem because of a mount: then an
   unwrap fails.
   */
  lemma {:induction false} RenameIntoItself(root: Node, host: Host, q: Path, r: Path)
    requires Lookup(root, q).Some? && IntoItself(q, r)
    ensures Rename(root, host, q, r) == if HostAgrees(root, host, q, r) then Panic else Refused(Failed)
  {
    ProperPrefixOf(q, r);
    if HasParent(root, q) {
      ViewRemove(root, q, Parent(r));
    }
  }

  /**
   Renaming something to another spelling of its own path changes nothing exactly if no part of it is mounted
   there.
   */
  lemma {:induction false} RenameInPlace(root: Node, host: Host, q: Path)
    requires Mirror(root, host) && HostAgrees(root, host, q, q)
    ensures var o := Rename(root, host, q, q); var place := View(root, Parent(q)).value.writeable.value + [Name(q)];
      && o.Changed?
      && (o.host == host && (forall s {:trigger View(o.root, s)} :: View(o.root, s) == View(root, s)) <==>
          MountFree(Lookup(root, q).value, place))
  {
    RenameViews(root, host, q, q);
    SourceIsHost(root, q);
    var m := MoveOf(root, host, q, q);
    hide Mirror, Rename;
    var root2 := Rename(root, host, q, q).root;
    forall x
      ensures q <= q + x && (q + x)[|q|..] == x && View(MovedNode(m), x) == View(root, q + x)
    {
      ViewBelow(m, x);
    }
    if MountFree(MovedNode(m), m.to) {
      assert Joined(MovedNode(m), m.to, []) && m.to + [] == m.to && q + [] == q;
      forall s
        ensures ViewMoved(m, s) == View(root, s)
      {
        if q <= s {
          assert q + s[|q|..] == s;
          assert Joined(MovedNode(m), m.to, s[|q|..]);
        }
      }
    } else {
      var x :| !Joined(MovedNode(m), m.to, x);
      assert View(root2, q + x) == ViewMoved(m, q + x) != View(root, q + x);
    }
  }

  // ----- creating a directory and its parents

  datatype AllOutcome = AllDone(root: Node, host: Host) | Stopped(root: Node, host: Host, error: FsError) | AllPanic

  /** `create_dir_all`: the directories at the paths `steps`, from step `k` on; what exists already is passed over. */
  function CreateAll(root: Node, host: Host, steps: seq<Path>, k: nat): AllOutcome
    decreases |steps| - k
  {
    if k >= |steps| then AllDone(root, host)
    else match CreateDir(root, host, steps[k])
      case Changed(root2, host2) => CreateAll(root2, host2, steps, k + 1)
      case Refused(AlreadyExist) => CreateAll(root, host, steps, k + 1)
      case Refused(e) => Stopped(root, host, e)
      case Panic => AllPanic
  }

  /** The steps to a path: all its prefixes but the empty one. */
  function StepsTo(cs: Path): (steps: seq<Path>)
    ensures |steps| == |cs| && forall i :: 0 <= i < |cs| ==> steps[i] == cs[..i + 1]
  {
    seq(|cs|, i requires 0 <= i < |cs| => cs[..i + 1])
  }

  /** Where on the host a directory at `q` is, or goes if it is created with all its parents. */
  function Landing(root: Node, q: Path): Option<Path>
    decreases |q|
  {
    match View(root, q)
    case Some(DirInfo(w)) => w
    case Some(FileInfo(_, _)) => None
    case None =>
      if q == [] then None
      else match Landing(root, Parent(q)) case None => None case Some(h) => Some(h + [Name(q)])
  }

  /** The directory at `q` would have to be created where the host has a file left over. */
  predicate FileInWay(root: Node, host: Host, q: Path) {
    View(root, q).None? && Landing(root, q).Some? && IsFile(host, Landing(root, q).value)
  }

  /** A file left over on the way to `cs`, beyond the first `k` components. */
  ghost predicate BlockedOnWay(root: Node, host: Host, cs: Path, k: nat) {
    exists i {:trigger cs[..i]} :: k < i < |cs| && FileInWay(root, host, cs[..i])
  }

  lemma {:induction false} PrefixStep(cs: Path, k: nat)
    requires k < |cs|
    ensures cs[..k + 1] != [] && Parent(cs[..k + 1]) == cs[..k]
  {
  }

  lemma {:induction false} LandsNowhere(root: Node, cs: Path, k: nat, i: nat)
    requires k < i <= |cs| && View(root, cs[..k + 1]).None? && Landing(root, cs[..k]).None?
    ensures Landing(root, cs[..i]).None?
    decreases i
  {
    PrefixStep(cs, i - 1);
    if i > k + 1 {
      LandsNowhere(root, cs, k, i - 1);
    }
    NothingBelow(root, cs, k + 1, i);
  }

  lemma {:induction false} NothingBelow(root: Node, cs: Path, k: nat, i: nat)
    requires k <= i <= |cs| && View(root, cs[..k]).None?
    ensures View(root, cs[..i]).None?
  {
    assert cs[..k] <= cs[..i];
    if View(root, cs[..i]).Some? {
      ViewPrefix(root, cs[..k], cs[..i]);
    }
  }

  /** What is still to be created lands where it would have landed. */
  lemma {:induction false} LandingStays(root: Node, root2: Node, p: Path, cs: Path, k: nat, i: nat)
    requires k < i <= |cs| && View(root, cs[..k + 1]).None? && Landing(root, cs[..k + 1]) == Some(p)
    requires Grown(root, root2, cs[..k + 1], DirInfo(Some(p)))
    ensures Landing(root2, cs[..i]) == Landing(root, cs[..i]) == Some(p + cs[k + 1..i])
    decreases i
  {
    hide View;
    if i == k + 1 {
      assert p + cs[k + 1..i] == p;
    } else {
      LandingStays(root, root2, p, cs, k, i - 1);
      NothingBelow(root, cs, k + 1, i);
      PrefixStep(cs, i - 1);
      assert cs[..i] != cs[..k + 1];
      assert p + cs[k + 1..i] == p + cs[k + 1..i - 1] + [cs[i - 1]];
    }
  }

  lemma {:induction false} WayStays(root: Node, host: Host, root2: Node, host2: Host, p: Path, cs: Path, k: nat, i: nat)
    requires k + 1 < i <= |cs| && View(root, cs[..k + 1]).None? && Landing(root, cs[..k + 1]) == Some(p)
    requires Grown(root, root2, cs[..k + 1], DirInfo(Some(p))) && (host2 == host || host2 == host[p := DirEntry])
    ensures FileInWay(root2, host2, cs[..i]) == FileInWay(root, host, cs[..i])
  {
    hide View, Landing;
    LandingStays(root, root2, p, cs, k, i);
    NothingBelow(root, cs, k + 1, i);
    assert cs[..i] != cs[..k + 1];
    assert |p + cs[k + 1..i]| > |p|;
  }

  /** A directory that took over a file can hold nothing. */
  lemma {:induction false} FilesHoldNothing(root: Node, host: Host, q: Path, name: string, p: Path)
    requires Closed(host) && IsFile(host, p) && View(root, q) == Some(DirInfo(Some(p))) && View(root, q + [name]).None?
    ensures CreateDir(root, host, q + [name]).Panic?
  {
    ParentOf(q, name);
    ParentOf(p, name);
    LookupChild(root, q + [name]);
    assert Placed(host, p + [name]);
  }

  /** What creating a directory with its parents leaves alone and adds. */
  ghost predicate OnlyAdds(root: Node, root2: Node, cs: Path) {
    && (forall s {:trigger View(root2, s)} :: View(root, s).Some? ==> View(root2, s) == View(root, s))
    && (forall s {:trigger View(root2, s)} :: View(root, s).None? && View(root2, s).Some? ==>
      s <= cs && View(root2, s).value.DirInfo?)
  }

  /**
   Creating a directory with its parents fails exactly if the host has a file left over where one of the
   parents has to go. Otherwise it only adds directories, and only on the way; when it is done, all of the
   way is there. It keeps the mirror exactly if no file is left over at the end of the way either.
   */
  lemma {:induction false} CreateAllKeepsMirror(root: Node, host: Host, cs: Path, k: nat)
    requires Mirror(root, host) && k <= |cs| && View(root, cs[..k]).Some?
    ensures var o := CreateAll(root, host, StepsTo(cs), k);
      && (o.AllPanic? <==> BlockedOnWay(root, host, cs, k))
      && (!o.AllPanic? ==> (Mirror(o.root, o.host) <==> !FileInWay(root, host, cs)) && OnlyAdds(root, o.root, cs))
      && (o.AllDone? ==> forall i {:trigger cs[..i]} :: k <= i <= |cs| ==> View(o.root, cs[..i]).Some?)
    decreases |cs| - k
  {
    hide Mirror, View, CreateDir, Landing;
    assert cs[..|cs|] == cs;
    if k < |cs| {
      var q := cs[..k + 1];
      PrefixStep(cs, k);
      CreateDirKeepsMirror(root, host, q);
      if View(root, q).Some? {
        CreateAllKeepsMirror(root, host, cs, k + 1);
      } else if Vacant(root, q) {
        CreateAllCreates(root, host, cs, k);
      } else {
        NotVacant(root, host, cs, k);
      }
    }
  }

  lemma {:induction false} NotVacant(root: Node, host: Host, cs: Path, k: nat)
    requires Mirror(root, host) && k < |cs| && View(root, cs[..k]).Some? && View(root, cs[..k + 1]).None?
      && !Vacant(root, cs[..k + 1])
    ensures CreateDir(root, host, cs[..k + 1]).Refused? && CreateDir(root, host, cs[..k + 1]) != Refused(AlreadyExist)
    ensures forall i {:trigger cs[..i]} :: k < i <= |cs| ==> !FileInWay(root, host, cs[..i])
  {
    var q := cs[..k + 1];
    PrefixStep(cs, k);
    CreateDirKeepsMirror(root, host, q);
    if HasParent(root, q) {
      LookupChild(root, q);
    }
    assert Landing(root, cs[..k]).None?;
    forall i {:trigger cs[..i]} | k < i <= |cs|
      ensures !FileInWay(root, host, cs[..i])
    {
      LandsNowhere(root, cs, k, i);
    }
  }

  lemma {:induction false} LandsInPlace(root: Node, q: Path)
    requires Vacant(root, q)
    ensures Landing(root, q) == Some(Place(root, q))
  {
  }

  lemma {:induction false} CreateAllCreates(root: Node, host: Host, cs: Path, k: nat)
    requires Mirror(root, host) && k < |cs| && Vacant(root, cs[..k + 1])
    ensures var o := CreateAll(root, host, StepsTo(cs), k);
      && (o.AllPanic? <==> BlockedOnWay(root, host, cs, k))
      && (!o.AllPanic? ==> (Mirror(o.root, o.host) <==> !FileInWay(root, host, cs)) && OnlyAdds(root, o.root, cs))
      && (o.AllDone? ==> forall i {:trigger cs[..i]} :: k <= i <= |cs| ==> View(o.root, cs[..i]).Some?)
    decreases |cs| - k, 0
  {
    var q := cs[..k + 1];
    var p := Place(root, q);
    PrefixStep(cs, k);
    CreateDirKeepsMirror(root, host, q);
    LandsInPlace(root, q);
    MirrorAt(root, host, q);
    hide Mirror, View, CreateDir, Landing;
    var o := CreateDir(root, host, q);
    assert cs[..|cs|] == cs;
    if !IsFile(host, p) {
      CreateAllKeepsMirror(o.root, o.host, cs, k + 1);
      forall i {:trigger cs[..i]} | k + 1 < i <= |cs|
        ensures FileInWay(o.root, o.host, cs[..i]) == FileInWay(root, host, cs[..i])
      {
        WayStays(root, host, o.root, o.host, p, cs, k, i);
      }
      assert !FileInWay(root, host, q);
    } else if k + 1 < |cs| {
      NothingBelow(root, cs, k + 1, k + 2);
      assert cs[..k + 2] == q + [cs[k + 1]];
      FilesHoldNothing(o.root, o.host, q, cs[k + 1], p);
      assert FileInWay(root, host, cs[..k + 1]);
    }
  }

  // ----- any sequence of changes

  datatype Change =
    | MakeDirectory(q: Path)
    | MakeAll(q: Path)
    | OpenFile(q: Path, mode: Mode, contents: nat)
    | Delete(q: Path)
    | MoveTo(q: Path, r: Path, found: Path)

  /** The state after a change; a refused one leaves it as it is. */
  function Apply(root: Node, host: Host, c: Change): Outcome {
    match c
    case MakeDirectory(q) => CreateDir(root, host, q)
    case MakeAll(q) =>
      (match CreateAll(root, host, StepsTo(q), 0)
       case AllDone(r, h) => Changed(r, h)
       case Stopped(r, h, _) => Changed(r, h)
       case AllPanic => Panic)
    case OpenFile(q, mode, contents) =>
      (match Open(root, host, q, mode, contents)
       case Opened(r, h, _) => Changed(r, h)
       case NotOpened => Refused(Failed)
       case OpenPanic => Panic)
    case Delete(q) => RemoveNode(root, host, q)
    case MoveTo(q, r, found) => RenameAnyCase(root, host, q, r, found)
  }

  /**
   What must not be so for a change to go well. The host must have no file where a directory is to be made, no
   directory where a file is, and nothing more in a directory to be removed; what is removed or renamed must
   not be another node's on the host too. Opens have a valid access mode; what is renamed is named exactly as
   it is, does not go into itself, and the host carries it along.
   */
  ghost predicate Fair(root: Node, host: Host, c: Change) {
    match c
    case MakeDirectory(q) => !(Vacant(root, q) && IsFile(host, Place(root, q)))
    case MakeAll(q) => !BlockedOnWay(root, host, q, 0) && !FileInWay(root, host, q)
    case OpenFile(q, mode, _) => !OpenFails(root, host, q, Forced(mode))
    case Delete(q) => Removable(root, q) && HostOf(View(root, q).value).Some? ==>
      !HasMore(host, HostOf(View(root, q).value).value) && Unshared(root, q, HostOf(View(root, q).value).value)
    case MoveTo(q, r, found) => Found(root, q, found) && HostAgrees(root, host, found, r) ==>
      && found == q && !IntoItself(q, r) && Carried(host, Lookup(root, q).value,
        RenameSource(Lookup(root, q).value).value)
      && LeavesNobody(root, host, q, r)
  }

  /** A change neither fails on the host nor breaks the mirror, exactly if it is fair. */
  lemma {:induction false} ChangeKeepsMirrorIffFair(root: Node, host: Host, c: Change)
    requires Mirror(root, host)
    ensures var o := Apply(root, host, c); Fair(root, host, c) <==> !o.Panic? && (o.Changed? ==> Mirror(o.root, o.host))
  {
    MirrorAt(root, host, []);
    hide Mirror, CreateDir, CreateAll, Open, RemoveNode, Rename, View, Carried, OpenFails, Vacant, IsFile;
    match c
    case MakeDirectory(q) => CreateDirKeepsMirror(root, host, q);
    case MakeAll(q) =>
      RootIsThere(root, q);
      CreateAllKeepsMirror(root, host, q, 0);
    case OpenFile(q, mode, contents) => OpenKeepsMirror(root, host, q, mode, contents);
    case Delete(q) => DeletingIsFair(root, host, q);
    case MoveTo(q, r, found) => MovingIsFair(root, host, q, r, found);
  }

  lemma {:induction false} RootIsThere(root: Node, q: Path)
    ensures View(root, q[..0]).Some?
  {
  }

  lemma {:induction false} DeletingIsFair(root: Node, host: Host, q: Path)
    requires Mirror(root, host)
    ensures var o := RemoveNode(root, host, q);
      Fair(root, host, Delete(q)) <==> !o.Panic? && (o.Changed? ==> Mirror(o.root, o.host))
  {
    RemoveKeepsMirror(root, host, q);
    MirrorAt(root, host, q);
    hide Mirror, RemoveNode, View;
    if Removable(root, q) {
      assert HostOf(View(root, q).value).Some?;
    }
  }

  lemma {:induction false} MovingIsFair(root: Node, host: Host, q: Path, r: Path, found: Path)
    requires Mirror(root, host)
    ensures var o := RenameAnyCase(root, host, q, r, found);
      Fair(root, host, MoveTo(q, r, found)) <==> !o.Panic? && (o.Changed? ==> Mirror(o.root, o.host))
  {
    RenameAnyCaseIs(root, host, q, r, found);
    hide Mirror, Rename, RenameAnyCase, View, Carried, HostAgrees, LeavesNobody, Found;
    if Found(root, q, found) && found == q {
      if !HostAgrees(root, host, q, r) {
        NotAgreedIsRefused(root, host, q, r);
      } else if IntoItself(q, r) {
        AgreedIntoItself(root, host, q, r);
      } else {
        RenameKeepsMirrorIffCarried(root, host, q, r);
      }
    }
  }

  lemma {:induction false} NotAgreedIsRefused(root: Node, host: Host, q: Path, r: Path)
    requires !HostAgrees(root, host, q, r)
    ensures Rename(root, host, q, r) == Refused(Failed)
  {
    if Lookup(root, q).Some? {
      RefusedUnlessAgreed(root, host, Lookup(root, q).value, q, r);
    }
  }

  lemma {:induction false} AgreedIntoItself(root: Node, host: Host, q: Path, r: Path)
    requires HostAgrees(root, host, q, r) && IntoItself(q, r)
    ensures Rename(root, host, q, r).Panic?
  {
    RenameIntoItself(root, host, q, r);
  }

  /** A history of changes, each fair where it happens, that ends in `root2` and `host2`. */
  ghost predicate History(root: Node, host: Host, changes: seq<Change>, root2: Node, host2: Host)
    decreases |changes|
  {
    if changes == [] then root2 == root && host2 == host
    else
      Fair(root, host, changes[0]) && match Apply(root, host, changes[0])
        case Changed(r, h) => History(r, h, changes[1..], root2, host2)
        case Refused(_) => History(root, host, changes[1..], root2, host2)
        case Panic => false
  }

  /**
   Whatever was done before, the mirror holds, so the next change fails unexpectedly, or breaks it, exactly
   if it is unfair.
   */
  lemma {:induction false} HistoryKeepsMirror(root: Node, host: Host, changes: seq<Change>, root2: Node, host2: Host,
      next: Change)
    requires Mirror(root, host) && History(root, host, changes, root2, host2)
    ensures Mirror(root2, host2)
    ensures var o := Apply(root2, host2, next);
      Fair(root2, host2, next) <==> !o.Panic? && (o.Changed? ==> Mirror(o.root, o.host))
    decreases |changes|
  {
    hide Mirror, Apply, Fair;
    if changes == [] {
      ChangeKeepsMirrorIffFair(root, host, next);
    } else {
      ChangeKeepsMirrorIffFair(root, host, changes[0]);
      match Apply(root, host, changes[0])
      case Changed(r, h) => HistoryKeepsMirror(r, h, changes[1..], root2, host2, next);
      case Refused(_) => HistoryKeepsMirror(root, host, changes[1..], root2, host2, next);
    }
  }

  // ----- names on the host

  /**
   A node in a writeable directory has that directory's host path with its own name, or else the host path
   of something that was mounted, or none.
   */
  ghost predicate Attached(root: Node, mounts: set<Option<Path>>, q: Path) {
    q != [] && View(root, q).Some? ==>
      match View(root, Parent(q))
      case Some(DirInfo(Some(h))) => HostOf(View(root, q).value) == Some(h + [Name(q)])
        || HostOf(View(root, q).value) in mounts
      case _ => true
  }

  ghost predicate AllAttached(root: Node, mounts: set<Option<Path>>) {
    forall q {:trigger Attached(root, mounts, q)} :: Attached(root, mounts, q)
  }

  lemma {:induction false} AttachedAt(root: Node, mounts: set<Option<Path>>, q: Path)
    requires AllAttached(root, mounts)
    ensures Attached(root, mounts, q)
  {
  }

  lemma {:induction false} GrowingKeepsAttached(root: Node, root2: Node, mounts: set<Option<Path>>, q: Path, i: Info)
    requires AllAttached(root, mounts) && Vacant(root, q) && Grown(root, root2, q, i)
      && HostOf(i) == Some(Place(root, q))
    ensures AllAttached(root2, mounts)
  {
    forall s
      ensures Attached(root2, mounts, s)
    {
      AttachedAt(root, mounts, s);
      hide View;
      if s != [] && View(root, s).Some? {
        ParentIsDir(root, s);
      }
    }
  }

  lemma {:induction false} RemovingKeepsAttached(root: Node, root2: Node, mounts: set<Option<Path>>, q: Path)
    requires AllAttached(root, mounts)
    requires forall s {:trigger View(root2, s)} :: View(root2, s) == if q <= s then None else View(root, s)
    ensures AllAttached(root2, mounts)
  {
    hide View;
    forall s
      ensures Attached(root2, mounts, s)
    {
      AttachedAt(root, mounts, s);
    }
  }

  lemma {:induction false} MovingKeepsAttached(m: Move, root2: Node, mounts: set<Option<Path>>, s: Path)
    requires AllAttached(m.root, mounts) && Movable(m) && Rerooted(m, root2)
    ensures Attached(root2, mounts, s)
  {
    hide Mirror, View, AllAttached, Reached;
    if s != [] && View(root2, s).Some? {
      PrefixOfParent(m.r, s);
      PrefixOfParent(m.q, s);
      if !(m.r <= s) {
        AttachedAt(m.root, mounts, s);
      } else {
        var x := s[|m.r|..];
        ViewBelow(m, x);
        if x == [] {
          ReachedRoot(MovedNode(m));
          assert s == m.r && m.q + x == m.q && m.to + x == m.to;
          SourceNotAbove(m, []);
        } else {
          assert Parent(s)[|m.r|..] == Parent(x) && m.r <= Parent(s) && Name(x) == Name(s);
          ViewBelow(m, Parent(x));
          ReachedStep(MovedNode(m), x);
          assert Parent(m.q + x) == m.q + Parent(x) && Name(m.q + x) == Name(x);
          AttachedAt(m.root, mounts, m.q + x);
          assert m.to + Parent(x) + [Name(x)] == m.to + x;
        }
      }
    }
  }

  lemma {:induction false} MakingAllKeepsAttached(root: Node, host: Host, mounts: set<Option<Path>>, steps: seq<Path>,
      k: nat)
    requires AllAttached(root, mounts)
    ensures var o := CreateAll(root, host, steps, k); !o.AllPanic? ==> AllAttached(o.root, mounts)
    decreases |steps| - k
  {
    hide AllAttached, CreateDir;
    if k < |steps| {
      match CreateDir(root, host, steps[k])
      case Changed(root2, host2) =>
        CreateDirGrows(root, host, steps[k]);
        GrowingKeepsAttached(root, root2, mounts, steps[k], DirInfo(Some(Place(root, steps[k]))));
        MakingAllKeepsAttached(root2, host2, mounts, steps, k + 1);
      case Refused(AlreadyExist) => MakingAllKeepsAttached(root, host, mounts, steps, k + 1);
      case _ =>
    }
  }

  lemma {:induction false} CreateDirGrows(root: Node, host: Host, q: Path)
    requires CreateDir(root, host, q).Changed?
    ensures Vacant(root, q) && Grown(root, CreateDir(root, host, q).root, q, DirInfo(Some(Place(root, q))))
  {
    LookupChild(root, q);
    InsertLeafViews(root, q, Directory(map[], Some(Place(root, q))));
  }

  /**
   No change mounts anything: nodes have the host path of their directory with their name, but for what was
   mounted at the start.
   */
  lemma {:induction false} ChangeKeepsAttached(root: Node, host: Host, c: Change, mounts: set<Option<Path>>)
    requires Mirror(root, host) && AllAttached(root, mounts) && Apply(root, host, c).Changed?
    ensures AllAttached(Apply(root, host, c).root, mounts)
  {
    var o := Apply(root, host, c);
    match c
    case MakeDirectory(q) =>
      hide Mirror, AllAttached, CreateDir, View;
      CreateDirGrows(root, host, q);
      GrowingKeepsAttached(root, o.root, mounts, q, DirInfo(Some(Place(root, q))));
    case MakeAll(q) => MakingAllKeepsAttached(root, host, mounts, StepsTo(q), 0);
    case OpenFile(q, mode, contents) =>
      hide Mirror, AllAttached, Open, View, Vacant, Grown;
      OpenKeepsMirror(root, host, q, mode, contents);
      if Vacant(root, q) {
        GrowingKeepsAttached(root, o.root, mounts, q, FileInfo(HostFile(Place(root, q)), true));
      }
    case Delete(q) =>
      hide Mirror, AllAttached, RemoveNode, View;
      RemoveKeepsMirror(root, host, q);
      RemovingKeepsAttached(root, o.root, mounts, q);
    case MoveTo(q, r, found) =>
      RenameAnyCaseIs(root, host, q, r, found);
      RenamingKeepsAttached(root, host, q, r, mounts);
  }

  lemma {:induction false} RenamingKeepsAttached(root: Node, host: Host, q: Path, r: Path, mounts: set<Option<Path>>)
    requires Mirror(root, host) && AllAttached(root, mounts) && Rename(root, host, q, r).Changed?
    ensures AllAttached(Rename(root, host, q, r).root, mounts)
  {
    if !HostAgrees(root, host, q, r) {
      RefusedUnlessAgreed(root, host, Lookup(root, q).value, q, r);
    } else if IntoItself(q, r) {
      RenameIntoItself(root, host, q, r);
    } else {
      RenameViews(root, host, q, r);
      AgreedIsMovable(root, host, q, r);
      hide Rename, Movable, Rerooted, Mirror, View;
      forall s
        ensures Attached(Rename(root, host, q, r).root, mounts, s)
      {
        MovingKeepsAttached(MoveOf(root, host, q, r), Rename(root, host, q, r).root, mounts, s);
      }
    }
  }

  lemma {:induction false} HistoryKeepsAttached(root: Node, host: Host, changes: seq<Change>, root2: Node, host2: Host,
      mounts: set<Option<Path>>)
    requires Mirror(root, host) && AllAttached(root, mounts) && History(root, host, changes, root2, host2)
    ensures AllAttached(root2, mounts)
    decreases |changes|
  {
    hide Mirror, Apply, Fair, AllAttached;
    if changes != [] {
      ChangeKeepsMirrorIffFair(root, host, changes[0]);
      match Apply(root, host, changes[0])
      case Changed(r, h) =>
        ChangeKeepsAttached(root, host, changes[0], mounts);
        HistoryKeepsAttached(r, h, changes[1..], root2, host2, mounts);
      case Refused(_) => HistoryKeepsAttached(root, host, changes[1..], root2, host2, mounts);
    }
  }

  // ----- where the mirror matters

  const READ := Mode(true, false, false, false, false)

  const WRITE := Mode(false, true, false, false, false)

  /**
   Using a node fails on the host: opening it, for reading or writing, reading from it, or creating a
   directory there. A host directory can be opened for reading, but no file can be read from it.
   */
  predicate Unusable(root: Node, host: Host, q: Path) {
    || Open(root, host, q, READ, 0).OpenPanic? || Open(root, host, q, WRITE, 0).OpenPanic?
    || ReadFails(Open(root, host, q, READ, 0))
    || CreateDir(root, host, q).Panic?
  }

  predicate ReadFails(o: Opened) {
    o.Opened? && o.handle.HostHandle? && !IsFile(o.host, o.handle.path)
  }

  predicate Longer(name: string, names: set<string>) {
    forall n :: n in names ==> |n| < |name|
  }

  lemma {:induction false} FreshName(names: set<string>) returns (name: string)
    ensures Longer(name, names)
    decreases |names|
  {
    name := "+";
    if names != {} {
      var x :| x in names;
      var shorter := FreshName(names - {x});
      name := x + "+" + shorter;
      forall n | n in names
        ensures |n| < |name|
      {
        assert n == x || n in names - {x};
      }
    }
  }

  /** In a directory that is not backed nothing can be created. */
  lemma {:induction false} NothingFits(root: Node, host: Host, q: Path) returns (name: string)
    requires Closed(host) && View(root, q).Some? && View(root, q).value.DirInfo? && !Backed(host, View(root, q).value)
    ensures CreateDir(root, host, q + [name]).Panic?
  {
    var n := Lookup(root, q).value;
    var p := n.writeable.value;
    name := FreshName(n.children.Keys);
    ParentOf(q, name);
    ParentOf(p, name);
    assert Placed(host, p + [name]);
  }

  /** A node that is not backed cannot be opened, or nothing can be created in it. */
  lemma {:induction false} UnbackedIsUnusable(root: Node, host: Host, q: Path)
    requires Closed(host) && root.Directory? && View(root, q).Some? && !Backed(host, View(root, q).value)
    ensures exists s :: Unusable(root, host, s)
  {
    var n := Lookup(root, q).value;
    if n.File? {
      assert q != [];
      ViewParent(root, q);
      LookupChild(root, q);
      assert Unusable(root, host, q);
    } else {
      var name := NothingFits(root, host, q);
      assert Unusable(root, host, q + [name]);
    }
  }

  /**
   The mirror is just what the operations rely on: it holds exactly if every file can be opened and read, and
   opened for writing where the tree allows it, and every directory created where the tree allows it.
   */
  lemma {:induction false} MirrorIffUsable(root: Node, host: Host)
    requires Closed(host) && root.Directory?
    ensures Mirror(root, host) <==> forall q :: !Unusable(root, host, q)
  {
    hide Unusable, Open, CreateDir, View;
    if Mirror(root, host) {
      forall q
        ensures !Unusable(root, host, q)
      {
        MirroredIsUsable(root, host, q);
      }
    } else {
      var q :| View(root, q).Some? && !Backed(host, View(root, q).value);
      UnbackedIsUnusable(root, host, q);
    }
  }

  lemma {:induction false} CreateDirKeepsClosed(root: Node, host: Host, q: Path)
    requires Closed(host) && root.Directory? && CreateDir(root, host, q).Changed?
    ensures var o := CreateDir(root, host, q); Closed(o.host) && o.root.Directory?
  {
    CreateDirGrows(root, host, q);
    var host2 := CreateDir(root, host, q).host;
    hide Insert, Lookup;
    forall k
      ensures Placed(host2, k)
    {
      assert Placed(host, k);
    }
  }

  lemma {:induction false} CreateAllKeepsClosed(root: Node, host: Host, steps: seq<Path>, k: nat)
    requires Closed(host) && root.Directory?
    ensures var o := CreateAll(root, host, steps, k); !o.AllPanic? ==> Closed(o.host) && o.root.Directory?
    decreases |steps| - k
  {
    hide Closed, CreateDir;
    if k < |steps| {
      match CreateDir(root, host, steps[k])
      case Changed(root2, host2) =>
        CreateDirKeepsClosed(root, host, steps[k]);
        CreateAllKeepsClosed(root2, host2, steps, k + 1);
      case Refused(AlreadyExist) => CreateAllKeepsClosed(root, host, steps, k + 1);
      case _ =>
    }
  }

  lemma {:induction false} RemoveKeepsClosed(root: Node, host: Host, q: Path)
    requires Mirror(root, host) && RemoveNode(root, host, q).Changed?
    ensures var o := RemoveNode(root, host, q); Closed(o.host) && o.root.Directory?
  {
    RemoveKeepsMirror(root, host, q);
    MirrorAt(root, host, q);
    var o := RemoveNode(root, host, q);
    hide Mirror, RemoveNode, Removable;
    assert o.root.Directory? by { assert View(o.root, []) == View(root, []); }
    var p := HostOf(View(root, q).value).value;
    assert forall k :: k in host && p <= k ==> k == p;
    forall k
      ensures Placed(o.host, k)
    {
      assert Placed(host, k);
      if k != [] {
        PrefixOfParent(p, k);
      }
    }
  }

  lemma {:induction false} RenameKeepsClosed(root: Node, host: Host, q: Path, r: Path)
    requires Mirror(root, host) && Rename(root, host, q, r).Changed?
    ensures var o := Rename(root, host, q, r); Closed(o.host) && o.root.Directory?
  {
    if !HostAgrees(root, host, q, r) {
      RefusedUnlessAgreed(root, host, Lookup(root, q).value, q, r);
    } else if IntoItself(q, r) {
      RenameIntoItself(root, host, q, r);
    } else {
      RenameViews(root, host, q, r);
      AgreedIsMovable(root, host, q, r);
      hide Rename, Movable, Mirror, View;
      forall k
        ensures Placed(Rename(root, host, q, r).host, k)
      {
        MovedPlaced(MoveOf(root, host, q, r), k);
      }
    }
  }

  lemma {:induction false} ChangeKeepsClosed(root: Node, host: Host, c: Change)
    requires Mirror(root, host) && Apply(root, host, c).Changed?
    ensures var o := Apply(root, host, c); Closed(o.host) && o.root.Directory?
  {
    MirrorAt(root, host, []);
    match c
    case MakeDirectory(q) => CreateDirKeepsClosed(root, host, q);
    case MakeAll(q) => CreateAllKeepsClosed(root, host, StepsTo(q), 0);
    case OpenFile(q, mode, contents) =>
      OpenKeepsMirror(root, host, q, mode, contents);
      MirrorAt(Apply(root, host, c).root, Apply(root, host, c).host, q);
    case Delete(q) => RemoveKeepsClosed(root, host, q);
    case MoveTo(q, r, found) =>
      RenameAnyCaseIs(root, host, q, r, found);
      RenameKeepsClosed(root, host, q, r);
  }

  /** An unfair change is felt: it fails itself, or afterwards some node cannot be opened, read or created in. */
  lemma {:induction false} FairIffNothingFails(root: Node, host: Host, c: Change)
    requires Mirror(root, host)
    ensures var o := Apply(root, host, c);
      Fair(root, host, c) <==> !o.Panic? && (o.Changed? ==> forall q :: !Unusable(o.root, o.host, q))
  {
    hide Mirror, Apply, Fair, Unusable;
    ChangeKeepsMirrorIffFair(root, host, c);
    var o := Apply(root, host, c);
    if o.Changed? {
      ChangeKeepsClosed(root, host, c);
      MirrorIffUsable(o.root, o.host);
    }
  }

  lemma {:induction false} MirroredIsUsable(root: Node, host: Host, q: Path)
    requires Mirror(root, host)
    ensures !Unusable(root, host, q)
  {
    OpenKeepsMirror(root, host, q, READ, 0);
    OpenKeepsMirror(root, host, q, WRITE, 0);
    CreateDirKeepsMirror(root, host, q);
    OpenedIsFile(root, host, q);
  }

  lemma {:induction false} OpenedIsFile(root: Node, host: Host, q: Path)
    requires Mirror(root, host)
    ensures !ReadFails(Open(root, host, q, READ, 0))
  {
    MirrorAt(root, host, q);
    hide Mirror;
    if HasParent(root, q) {
      LookupChild(root, q);
    }
  }

  lemma {:induction false} NothingBelowFile(root: Node, q: Path, s: Path)
    requires Lookup(root, q).Some? && Lookup(root, q).value.File? && q <= s && Lookup(root, s).Some?
    ensures s == q
  {
    LookupAppends(root, q, s[|q|..]);
    assert q + s[|q|..] == s;
  }

  /**
   Of two nodes for the same host file one cannot be opened once the other has been removed: opening
   fails on the host exactly for those that shared the removed node's host path.
   */
  lemma {:induction false} RemovalStrandsSharers(root: Node, host: Host, q: Path, s: Path, p: Path, mode: Mode,
      contents: nat)
    requires View(root, q) == Some(FileInfo(HostFile(p), true)) && RemoveNode(root, host, q).Changed?
    requires s != q && Lookup(root, s).Some? && Lookup(root, s).value.File? && Lookup(root, s).value.canWrite
      && Lookup(root, s).value.location.HostFile?
    requires IsFile(host, Lookup(root, s).value.location.path)
    requires HasParent(root, s) && Forced(mode).Valid()
    ensures var o := RemoveNode(root, host, q);
      Open(o.root, o.host, s, mode, contents).OpenPanic? <==> Lookup(root, s).value.location.path == p
  {
    LookupChild(root, q);
    var o := RemoveNode(root, host, q);
    assert o.host == host - {p} && o.root == Remove(root, q);
    if q <= s {
      NothingBelowFile(root, q, s);
    }
    ViewRemove(root, q, s);
    ViewParent(o.root, s);
    LookupChild(o.root, s);
    var n := Lookup(o.root, s).value;
    assert InfoOf(n) == InfoOf(Lookup(root, s).value);
    assert Open(o.root, o.host, s, mode, contents) == OpenExisting(o.root, o.host, n, Forced(mode), contents);
  }

  /**
   Creating a directory over something left over on the host. If that is a directory, all is well except
   that the new directory, empty for the guest, cannot be removed if it is not empty on the host. If it is
   a file, neither creating anything in the new directory nor removing it works.
   */
  lemma {:induction false} CreateDirOverLeftover(root: Node, host: Host, q: Path, name: string)
    requires Mirror(root, host) && Vacant(root, q) && Place(root, q) in host
    ensures var o := CreateDir(root, host, q); var p := Place(root, q);
      && o.Changed? && o.host == host && View(o.root, q) == Some(DirInfo(Some(p)))
      && (Mirror(o.root, o.host) <==> host[p].DirEntry?)
      && (RemoveNode(o.root, o.host, q).Panic? <==> host[p].FileEntry? || HasMore(host, p))
      && (host[p].FileEntry? ==> CreateDir(o.root, o.host, q + [name]).Panic?)
  {
    MirrorAt(root, host, q);
    VacantDirectory(root, host, q);
    CreateDirKeepsMirror(root, host, q);
    var o := CreateDir(root, host, q);
    var p := Place(root, q);
    forall s | q <= s && s != q
      ensures View(o.root, s).None?
    {
      if View(root, s).Some? {
        ViewPrefix(root, q, s);
      }
    }
    hide Mirror, CreateDir;
    ViewParent(o.root, q);
    LookupChild(o.root, q);
    ChildNodes(o.root, q);
    if host[p].FileEntry? {
      FilesHoldNothing(o.root, o.host, q, name, p);
    } else {
      assert IsEmptyDir(host, p) <==> !HasMore(host, p);
    }
  }
}
