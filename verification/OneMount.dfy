/**
 Runs that keep away from one mount (src/fs.rs): what they do is what they would do without it. So an
 application that never names the second mount of its library has a first run in which nothing fails.
 */
module OneMount {
  import opened Common
  import opened FileTree
  import opened NodeLookup
  import opened HostMirror
  import opened Vfs
  import opened NoLeftovers
  import opened DisjointMounts
  import opened Launch

  // ----- trees without what is at `b`

  lemma {:induction false} LookupRemoved(n: Node, b: Path, q: Path)
    requires HasParent(n, b) && !(b <= q)
    ensures q <= b ==> Lookup(n, q).Some? && HasParent(Lookup(n, q).value, b[|q|..])
    ensures Lookup(Remove(n, b), q) ==
      if q <= b then Some(Remove(Lookup(n, q).value, b[|q|..])) else Lookup(n, q)
    decreases |b|
  {
    if q == [] {
      assert b[|q|..] == b;
    } else if |b| == 1 {
      assert q[0] != b[0];
    } else {
      ParentOfTail(n, b);
      if q[0] == b[0] {
        PrefixTail(b, q);
        PrefixTail(q, b);
        LookupRemoved(n.children[b[0]], b[1..], q[1..]);
        if q <= b {
          assert b[1..][|q| - 1..] == b[|q|..];
        }
      }
    }
  }

  lemma {:induction false} ParentAfterRemove(n: Node, b: Path, q: Path)
    requires HasParent(n, b) && !(b <= q)
    ensures HasParent(Remove(n, b), q) <==> HasParent(n, q)
  {
    if q != [] {
      ViewRemove(n, b, Parent(q));
      PrefixOfParent(b, q);
    }
  }

  lemma {:induction false} ParentAfterInsert(n: Node, b: Path, c: Node, q: Path)
    requires HasParent(n, b) && !(b <= q)
    ensures HasParent(Insert(n, b, c), q) <==> HasParent(n, q)
  {
    if q != [] {
      ViewInsert(n, b, c, Parent(q));
      PrefixOfParent(b, q);
    }
  }

  lemma {:induction false} DisjointHeads(q: Path, b: Path)
    requires Disjoint(q, b) && q != [] && b != []
    ensures q[0] == b[0] ==> |q| > 1 && |b| > 1 && Disjoint(q[1..], b[1..])
  {
    if q[0] == b[0] {
      PrefixTail(q, b);
      PrefixTail(b, q);
    }
  }

  lemma {:induction false} InsertOverRemove(n: Node, b: Path, q: Path, c: Node)
    requires HasParent(n, b) && HasParent(n, q) && Disjoint(q, b)
    ensures HasParent(Insert(n, q, c), b) && HasParent(Remove(n, b), q)
    ensures Insert(Remove(n, b), q, c) == Remove(Insert(n, q, c), b)
    decreases |q|
  {
    ParentAfterInsert(n, q, c, b);
    ParentAfterRemove(n, b, q);
    DisjointHeads(q, b);
    if |q| > 1 {
      ParentOfTail(n, q);
    }
    if |b| > 1 {
      ParentOfTail(n, b);
    }
    if q[0] == b[0] {
      InsertOverRemove(n.children[q[0]], b[1..], q[1..], c);
    }
  }

  lemma {:induction false} RemoveOverRemove(n: Node, b: Path, q: Path)
    requires HasParent(n, b) && HasParent(n, q) && Disjoint(q, b)
    ensures HasParent(Remove(n, q), b) && HasParent(Remove(n, b), q)
    ensures Remove(Remove(n, b), q) == Remove(Remove(n, q), b)
    decreases |q|
  {
    ParentAfterRemove(n, q, b);
    ParentAfterRemove(n, b, q);
    DisjointHeads(q, b);
    if |q| > 1 {
      ParentOfTail(n, q);
    }
    if |b| > 1 {
      ParentOfTail(n, b);
    }
    if q[0] == b[0] {
      RemoveOverRemove(n.children[q[0]], b[1..], q[1..]);
    }
  }

  lemma {:induction false} RemoveInserted(n: Node, b: Path, c: Node)
    requires HasParent(n, b) && View(n, b).None?
    ensures HasParent(Insert(n, b, c), b) && Remove(Insert(n, b, c), b) == n
    decreases |b|
  {
    ViewInsert(n, b, c, Parent(b));
    if |b| == 1 {
      assert b[1..] == [];
      assert Lookup(n, b) == if b[0] in n.children then Lookup(n.children[b[0]], []) else None;
    } else {
      ParentOfTail(n, b);
      RemoveInserted(n.children[b[0]], b[1..], c);
    }
  }

  // ----- operations elsewhere

  /** The same outcome, but for what is at `b`. */
  ghost predicate SameBut(o: Outcome, o1: Outcome, b: Path) {
    match (o, o1)
    case (Changed(r, h), Changed(r1, h1)) => HasParent(r, b) && r1 == Remove(r, b) && h1 == h
    case (Refused(e), Refused(e1)) => e == e1
    case (Panic, Panic) => true
    case _ => false
  }

  ghost predicate SameOpened(o: Opened, o1: Opened, b: Path) {
    match (o, o1)
    case (Opened(r, h, x), Opened(r1, h1, x1)) => HasParent(r, b) && r1 == Remove(r, b) && h1 == h && x1 == x
    case (NotOpened, NotOpened) => true
    case (OpenPanic, OpenPanic) => true
    case _ => false
  }

  lemma {:induction false} RemovedIsDirectory(n: Node, b: Path)
    requires HasParent(n, b)
    ensures n.Directory? && Remove(n, b).Directory? && Remove(n, b).writeable == n.writeable
  {
    if |b| > 1 {
      ParentOfTail(n, b);
    }
  }

  /** The parent of a path elsewhere is of the same kind, and has a child of the name if it had. */
  lemma {:induction false} ParentRemoved(n: Node, b: Path, q: Path)
    requires HasParent(n, b) && !(b <= q)
    ensures LookupParent(Remove(n, b), q).Some? <==> LookupParent(n, q).Some?
    ensures LookupParent(n, q).Some? ==>
      match (LookupParent(n, q).value, LookupParent(Remove(n, b), q).value)
      case (File(l, w), File(l1, w1)) => true
      case (Directory(c, w), Directory(c1, w1)) => w1 == w && (Name(q) in c1 <==> Name(q) in c)
      case _ => false
  {
    if q != [] {
      PrefixOfParent(b, q);
      LookupRemoved(n, b, Parent(q));
      LookupRemoved(n, b, q);
      ParentAfterRemove(n, b, q);
      if Parent(q) <= b {
        RemovedIsDirectory(Lookup(n, Parent(q)).value, b[|q| - 1..]);
      }
      if HasParent(n, q) {
        LookupChild(n, q);
        LookupChild(Remove(n, b), q);
      }
    }
  }

  lemma {:induction false} CreateDirElsewhere(n: Node, b: Path, host: Host, q: Path)
    requires HasParent(n, b) && !(b <= q)
    ensures SameBut(CreateDir(n, host, q), CreateDir(Remove(n, b), host, q), b)
  {
    ParentRemoved(n, b, q);
    hide Lookup, Insert, Remove, HostCreateDir;
    if HasParent(n, q) {
      LookupChild(n, q);
      var d := Lookup(n, Parent(q)).value;
      if Name(q) !in d.children && d.writeable.Some? {
        AbsentIsDisjoint(n, b, q);
        InsertOverRemove(n, b, q, Directory(map[], Some(d.writeable.value + [Name(q)])));
      }
    }
  }

  /** What is not there is not above what is. */
  lemma {:induction false} AbsentIsDisjoint(n: Node, b: Path, q: Path)
    requires HasParent(n, b) && !(b <= q) && Lookup(n, q).None?
    ensures Disjoint(q, b)
  {
    if q <= b {
      LookupRemoved(n, b, q);
    }
  }

  lemma {:induction false} CreateAllElsewhere(n: Node, b: Path, host: Host, steps: seq<Path>, k: nat)
    requires HasParent(n, b) && forall i :: 0 <= i < |steps| ==> !(b <= steps[i])
    ensures match (CreateAll(n, host, steps, k), CreateAll(Remove(n, b), host, steps, k))
      case (AllDone(r, h), AllDone(r1, h1)) => HasParent(r, b) && r1 == Remove(r, b) && h1 == h
      case (Stopped(r, h, e), Stopped(r1, h1, e1)) => HasParent(r, b) && r1 == Remove(r, b) && h1 == h && e == e1
      case (AllPanic, AllPanic) => true
      case _ => false
    decreases |steps| - k
  {
    hide CreateDir, Remove, HasParent;
    if k < |steps| {
      CreateDirElsewhere(n, b, host, steps[k]);
      match CreateDir(n, host, steps[k])
      case Changed(root2, host2) => CreateAllElsewhere(root2, b, host2, steps, k + 1);
      case Refused(AlreadyExist) => CreateAllElsewhere(n, b, host, steps, k + 1);
      case _ =>
    }
  }

  lemma {:induction false} OpenExistingElsewhere(n: Node, b: Path, host: Host, q: Path, mode: Mode, contents: nat)
    requires HasParent(n, b) && !(b <= q) && Lookup(n, q).Some?
    ensures Lookup(Remove(n, b), q).Some?
    ensures SameOpened(OpenExisting(n, host, Lookup(n, q).value, mode, contents),
      OpenExisting(Remove(n, b), host, Lookup(Remove(n, b), q).value, mode, contents), b)
  {
    LookupRemoved(n, b, q);
    if q <= b {
      RemovedIsDirectory(Lookup(n, q).value, b[|q|..]);
    }
  }

  lemma {:induction false} OpenElsewhere(n: Node, b: Path, host: Host, q: Path, asked: Mode, contents: nat)
    requires HasParent(n, b) && !(b <= q)
    ensures SameOpened(Open(n, host, q, asked, contents), Open(Remove(n, b), host, q, asked, contents), b)
  {
    ParentRemoved(n, b, q);
    hide Lookup, Insert, Remove, HostOpen, OpenExisting;
    if HasParent(n, q) {
      LookupChild(n, q);
      ParentAfterRemove(n, b, q);
      LookupChild(Remove(n, b), q);
      var d := Lookup(n, Parent(q)).value;
      if Name(q) in d.children {
        OpenExistingElsewhere(n, b, host, q, Forced(asked), contents);
      } else if d.writeable.Some? {
        AbsentIsDisjoint(n, b, q);
        InsertOverRemove(n, b, q, File(HostFile(d.writeable.value + [Name(q)]), true));
      }
    }
  }

  lemma {:induction false} RemoveElsewhere(n: Node, b: Path, host: Host, q: Path)
    requires HasParent(n, b) && Disjoint(q, b)
    ensures SameBut(RemoveNode(n, host, q), RemoveNode(Remove(n, b), host, q), b)
  {
    ParentRemoved(n, b, q);
    LookupRemoved(n, b, q);
    hide Lookup, Remove, HostRemoveFile, HostRemoveDir;
    if HasParent(n, q) {
      LookupChild(n, q);
      ParentAfterRemove(n, b, q);
      LookupChild(Remove(n, b), q);
      RemoveOverRemove(n, b, q);
    }
  }

  lemma {:induction false} FinishElsewhere(n: Node, b: Path, host2: Host, q: Path, r: Path, to: Path)
    requires HasParent(n, b) && Disjoint(q, b) && Disjoint(r, b)
    ensures SameBut(FinishRename(n, host2, q, r, to), FinishRename(Remove(n, b), host2, q, r, to), b)
  {
    LookupRemoved(n, b, q);
    ParentAfterRemove(n, b, q);
    hide Lookup, Remove, Insert, HasParent;
    if HasParent(n, q) {
      RemoveOverRemove(n, b, q);
      ParentAfterRemove(Remove(n, q), b, r);
      if Lookup(n, q).Some? && HasParent(Remove(n, q), r) {
        InsertOverRemove(Remove(n, q), b, r, Rebase(Lookup(n, q).value, to));
      }
    }
  }

  /** The paths lead different ways even if case is ignored. */
  predicate Differ(q: Path, b: Path) {
    exists i :: 0 <= i < |q| && i < |b| && LowerCase(q[i]) != LowerCase(b[i])
  }

  lemma {:induction false} DifferElsewhere(q: Path, b: Path, a: Path)
    requires Differ(q, b) && SameNames(a, q)
    ensures Disjoint(a, b)
    ensures forall i {:trigger a[..i]} :: 0 <= i < |q| ==> !(b <= a[..i] + [q[i]])
  {
    hide LowerCase;
    var k :| 0 <= k < |q| && k < |b| && LowerCase(q[k]) != LowerCase(b[k]);
    assert LowerCase(a[k]) == LowerCase(q[k]);
    forall i {:trigger a[..i]} | 0 <= i < |q|
      ensures !(b <= a[..i] + [q[i]])
    {
      var p := a[..i] + [q[i]];
      assert k < |p| ==> LowerCase(p[k]) == LowerCase(q[k]);
    }
  }

  /** The lookup finds the same node. */
  lemma {:induction false} FoundElsewhere(n: Node, b: Path, q: Path, found: Path)
    requires HasParent(n, b) && Differ(q, b)
    ensures Found(Remove(n, b), q, found) <==> Found(n, q, found)
    ensures Found(n, q, found) ==> Disjoint(found, b) && Lookup(Remove(n, b), found) == Lookup(n, found)
  {
    hide LowerCase, Lookup, Remove;
    if SameNames(found, q) {
      DifferElsewhere(q, b, found);
      LookupRemoved(n, b, found);
      forall i {:trigger found[i]} | 0 <= i < |found|
        ensures Lookup(Remove(n, b), found[..i] + [q[i]]).Some? <==> Lookup(n, found[..i] + [q[i]]).Some?
      {
        LookupRemoved(n, b, found[..i] + [q[i]]);
      }
    }
  }

  lemma {:induction false} RenameElsewhere(n: Node, b: Path, host: Host, q: Path, r: Path, found: Path)
    requires HasParent(n, b) && Differ(q, b) && Disjoint(r, b)
    ensures SameBut(RenameAnyCase(n, host, q, r, found), RenameAnyCase(Remove(n, b), host, q, r, found), b)
  {
    ParentRemoved(n, b, r);
    FoundElsewhere(n, b, q, found);
    DifferElsewhere(q, b, q);
    hide Lookup, Remove, HostRename, FinishRename, Found, Differ;
    if Found(n, q, found) && LookupParent(n, r).Some? && LookupParent(n, r).value.Directory?
      && LookupParent(n, r).value.writeable.Some? {
      FoundNames(n, q, found);
      var c := Lookup(n, found).value;
      if RenameSource(c).Some? {
        var to := LookupParent(n, r).value.writeable.value + [Name(r)];
        var h := HostRename(host, RenameSource(c).value, to);
        if h.HostOk? {
          FinishElsewhere(n, b, h.host, q, r, to);
        }
      }
    }
  }

  // ----- changes elsewhere

  /**
   A change that does not name `b` or anything below it, nor removes, moves or replaces what it is in. What is
   renamed must not be named so in another case either.
   */
  predicate Avoids(c: Change, b: Path) {
    match c
    case MakeDirectory(q) => !(b <= q)
    case MakeAll(q) => !(b <= q)
    case OpenFile(q, _, _) => !(b <= q)
    case Delete(q) => Disjoint(q, b)
    case MoveTo(q, r, _) => Differ(q, b) && Disjoint(r, b)
  }

  /** What avoids a node does the same without it. */
  lemma {:induction false} ChangeElsewhere(n: Node, b: Path, host: Host, c: Change)
    requires HasParent(n, b) && Avoids(c, b)
    ensures SameBut(Apply(n, host, c), Apply(Remove(n, b), host, c), b)
  {
    hide CreateDir, CreateAll, Open, RemoveNode, Rename, Remove, HasParent;
    match c
    case MakeDirectory(q) => CreateDirElsewhere(n, b, host, q);
    case MakeAll(q) =>
      forall i | 0 <= i < |q|
        ensures !(b <= StepsTo(q)[i])
      {
        PrefixTransitiveIf(b, q[..i + 1], q);
      }
      CreateAllElsewhere(n, b, host, StepsTo(q), 0);
    case OpenFile(q, mode, contents) => OpenElsewhere(n, b, host, q, mode, contents);
    case Delete(q) => RemoveElsewhere(n, b, host, q);
    case MoveTo(q, r, found) => RenameElsewhere(n, b, host, q, r, found);
  }

  lemma {:induction false} ViewElsewhere(n: Node, b: Path, q: Path)
    requires HasParent(n, b) && !(b <= q)
    ensures View(Remove(n, b), q) == View(n, q)
    ensures q != [] ==> View(Remove(n, b), Parent(q)) == View(n, Parent(q))
  {
    ViewRemove(n, b, q);
    if q != [] {
      ViewRemove(n, b, Parent(q));
      PrefixOfParent(b, q);
    }
  }

  lemma {:induction false} ProperElsewhere(n: Node, b: Path, host: Host, c: Change)
    requires HasParent(n, b) && Avoids(c, b)
    ensures Proper(Remove(n, b), host, c) <==> Proper(n, host, c)
  {
    hide View, Remove, HasParent, Lookup, MountFree;
    match c
    case OpenFile(q, mode, _) => ViewElsewhere(n, b, q);
    case MoveTo(q, r, found) =>
      FoundElsewhere(n, b, q, found);
      DifferElsewhere(q, b, q);
      LookupRemoved(n, b, q);
      ViewElsewhere(n, b, r);
    case _ =>
  }

  lemma {:induction false} UsableElsewhere(n: Node, b: Path, host: Host, q: Path)
    requires HasParent(n, b) && !(b <= q)
    ensures Unusable(Remove(n, b), host, q) <==> Unusable(n, host, q)
  {
    hide CreateDir, Open, Remove, HasParent;
    CreateDirElsewhere(n, b, host, q);
    OpenElsewhere(n, b, host, q, READ, 0);
    OpenElsewhere(n, b, host, q, WRITE, 0);
  }

  // ----- runs

  /** The state after proper changes that avoid `b`. */
  ghost predicate AvoidingHistory(root: Node, host: Host, changes: seq<Change>, b: Path, root2: Node, host2: Host)
    decreases |changes|
  {
    if changes == [] then root2 == root && host2 == host
    else
      Proper(root, host, changes[0]) && Avoids(changes[0], b) && match Apply(root, host, changes[0])
        case Changed(r, h) => AvoidingHistory(r, h, changes[1..], b, root2, host2)
        case Refused(_) => AvoidingHistory(root, host, changes[1..], b, root2, host2)
        case Panic => false
  }

  lemma {:induction false} HistoryElsewhere(n: Node, host: Host, changes: seq<Change>, b: Path, n2: Node, host2: Host)
    requires HasParent(n, b) && AvoidingHistory(n, host, changes, b, n2, host2)
    ensures HasParent(n2, b) && ProperHistory(Remove(n, b), host, changes, Remove(n2, b), host2)
    decreases |changes|
  {
    hide Apply, Proper, Avoids, Remove, HasParent;
    if changes != [] {
      ProperElsewhere(n, b, host, changes[0]);
      ChangeElsewhere(n, b, host, changes[0]);
      match Apply(n, host, changes[0])
      case Changed(r, h) => HistoryElsewhere(r, h, changes[1..], b, n2, host2);
      case Refused(_) => HistoryElsewhere(n, host, changes[1..], b, n2, host2);
    }
  }

  /**
   On a first launch, as long as the application keeps away from one mount of its library, and so nothing but
   `Proper` is asked of it, nothing fails, now or later, outside that mount.
   */
  lemma {:induction false} OneMountNeverFails(host: Host, p: Parts, changes: seq<Change>, root2: Node, host2: Host,
      next: Change)
    requires PartsOk(host, p) && !HasMore(host, p.base + ["AppSandbox"])
    requires AvoidingHistory(StartTree(host, p), host, changes, LIBRARY, root2, host2)
    requires Avoids(next, LIBRARY) && Proper(root2, host2, next)
    ensures var o := Apply(root2, host2, next);
      !o.Panic? && (o.Changed? ==> forall q :: !(LIBRARY <= q) ==> !Unusable(o.root, o.host, q))
  {
    StartWithout(host, p);
    hide Apply, Proper, Avoids, StartTree, OneLibraryTree, PartsOk, Remove, Unusable, AvoidingHistory, ProperHistory,
      HasParent, Mirror, AllAligned, Full;
    HistoryElsewhere(StartTree(host, p), host, changes, LIBRARY, root2, host2);
    var n2 := Remove(root2, LIBRARY);
    NothingFailsWithoutLeftovers(OneLibraryTree(host, p), host, changes, n2, host2, next);
    ProperElsewhere(root2, LIBRARY, host2, next);
    ChangeElsewhere(root2, LIBRARY, host2, next);
    var o := Apply(root2, host2, next);
    if o.Changed? {
      forall q | !(LIBRARY <= q)
        ensures !Unusable(o.root, o.host, q)
      {
        UsableElsewhere(o.root, LIBRARY, o.host, q);
      }
    }
  }

  /** The tree of a launch without the second mount. */
  lemma {:induction false} StartWithout(host: Host, p: Parts)
    requires PartsOk(host, p)
    ensures var r, r1 := StartTree(host, p), OneLibraryTree(host, p);
      && HasParent(r, LIBRARY) && Remove(r, LIBRARY) == r1 && Mirror(r1, host) && AllAligned(r1)
      && (!HasMore(host, p.base + ["AppSandbox"]) ==> Full(r1, host))
  {
    OneLibraryMirrors(host, p);
    LibraryStep(host, p);
    hide Mirror, AllAligned, Full, AllAttached, OneLibraryTree, PartsOk, FromHostDir, MountPoints, View, HasParent,
      Insert, Remove;
    var r1, m := OneLibraryTree(host, p), Mount(LIBRARY, FromHostDir(host, p.base + ["Library"], true));
    MountableHasParent(r1, m);
    RemoveInserted(r1, LIBRARY, m.node);
  }
}
