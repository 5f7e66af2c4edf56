/**
 The common case of `Vfs`: the host has nothing in the writeable directories that no guest node stands for.
 Then whether a change fails, or makes something else fail, can be told from the guest tree: it does exactly
 if another node shares a host path that it takes away, or takes the place of what it adds.
 */
module NoLeftovers {
  import opened Common
  import opened FileTree
  import opened NodeLookup
  import opened HostMirror
  import opened Vfs

  /** Some node stands for the host entry at `p`. */
  ghost predicate Held(root: Node, p: Path) {
    exists s {:trigger View(root, s)} :: HasHost(View(root, s), p)
  }

  /** A node, a directory or not, stands for the host entry at `p`. */
  ghost predicate HeldAs(root: Node, p: Path, directory: bool) {
    exists s {:trigger View(root, s)} :: HasHost(View(root, s), p) && View(root, s).value.DirInfo? == directory
  }

  /** For every host entry in a writeable directory there is a node, in this directory or elsewhere. */
  ghost predicate Complete(root: Node, host: Host, q: Path) {
    match View(root, q)
    case Some(DirInfo(Some(h))) => forall name {:trigger h + [name]} :: h + [name] in host ==> Held(root, h + [name])
    case _ => true
  }

  /** Nothing is left over anywhere. */
  ghost predicate Full(root: Node, host: Host) {
    forall q {:trigger Complete(root, host, q)} :: Complete(root, host, q)
  }

  lemma {:induction false} FullAt(root: Node, host: Host, q: Path)
    requires Full(root, host)
    ensures Complete(root, host, q)
  {
  }

  lemma {:induction false} FullIfComplete(root: Node, host: Host)
    requires forall s {:trigger Complete(root, host, s)} :: Complete(root, host, s)
    ensures Full(root, host)
  {
  }

  lemma {:induction false} Holds(root: Node, s: Path, p: Path)
    requires HasHost(View(root, s), p)
    ensures Held(root, p)
  {
  }

  /** Whatever stands for a host entry is of its kind. */
  lemma {:induction false} HolderKind(root: Node, host: Host, s: Path, p: Path)
    requires Mirror(root, host) && HasHost(View(root, s), p)
    ensures p in host && (View(root, s).value.DirInfo? <==> host[p].DirEntry?)
    ensures View(root, s).value.DirInfo? ==> View(root, s) == Some(DirInfo(Some(p)))
  {
    MirrorAt(root, host, s);
  }

  /** Everything on the host below a writeable directory has a node. */
  lemma {:induction false} HeldBelow(root: Node, host: Host, q: Path, h: Path, k: Path)
    requires Mirror(root, host) && Full(root, host) && View(root, q) == Some(DirInfo(Some(h))) && k in host && h <= k
    ensures Held(root, k)
    decreases |k|
  {
    hide Mirror, View, Full;
    MirrorAt(root, host, q);
    if k == h {
      Holds(root, q, h);
    } else {
      ProperPrefixOf(h, k);
      assert Placed(host, k);
      HeldBelow(root, host, q, h, Parent(k));
      var s :| HasHost(View(root, s), Parent(k));
      HolderKind(root, host, s, Parent(k));
      FullAt(root, host, s);
      ParentName(k);
    }
  }

  /** Below a writeable directory the nodes tell what the host has. */
  lemma {:induction false} HostIsHeld(root: Node, host: Host, q: Path, h: Path, k: Path)
    requires Mirror(root, host) && Full(root, host) && View(root, q) == Some(DirInfo(Some(h))) && h <= k
    ensures IsFile(host, k) <==> HeldAs(root, k, false)
    ensures IsDir(host, k) <==> HeldAs(root, k, true)
  {
    hide Mirror, View, Full;
    if k in host {
      HeldBelow(root, host, q, h, k);
      var s :| HasHost(View(root, s), k);
      HolderKind(root, host, s, k);
    }
    forall s | HasHost(View(root, s), k)
      ensures k in host && (View(root, s).value.DirInfo? <==> host[k].DirEntry?)
    {
      HolderKind(root, host, s, k);
    }
  }

  // ----- when a change is fair

  /** A file stands in the way of the directory that would have to be created at `q`. */
  ghost predicate FileNodeInWay(root: Node, q: Path) {
    View(root, q).None? && Landing(root, q).Some? && HeldAs(root, Landing(root, q).value, false)
  }

  /** The node at `s`, other than `q`, has a host path at or under `p`. */
  predicate Shares(root: Node, q: Path, p: Path, s: Path) {
    s != q && View(root, s).Some? && HostOf(View(root, s).value).Some? && p <= HostOf(View(root, s).value).value
  }

  ghost predicate NobodyShares(root: Node, q: Path, p: Path) {
    forall s {:trigger Shares(root, q, p, s)} :: !Shares(root, q, p, s)
  }

  /** Where a backed node that is reached is to be carried along there is a node of its kind for the host's entry. */
  ghost predicate CarriedByNode(root: Node, n: Node, from: Path, x: Path) {
    Reached(n, x) && View(n, x).Some? && HostOf(View(n, x).value).Some? ==>
      HeldAs(root, from + x, View(n, x).value.DirInfo?)
  }

  ghost predicate CarriedByNodes(root: Node, n: Node, from: Path) {
    forall x {:trigger CarriedByNode(root, n, from, x)} :: CarriedByNode(root, n, from, x)
  }

  /**
   No other node shares what a change adds, removes or renames: what is to be created is not there already
   as a node of the other kind; nothing else has a host path at or under that of what is removed, or stays
   with one that is renamed. Opens have a valid access mode, and what is renamed is named exactly as it is and
   does not go into itself.
   */
  ghost predicate Private(root: Node, host: Host, c: Change) {
    match c
    case MakeDirectory(q) => Vacant(root, q) ==> !HeldAs(root, Place(root, q), false)
    case MakeAll(q) => forall i {:trigger q[..i]} :: 0 < i <= |q| ==> !FileNodeInWay(root, q[..i])
    case OpenFile(q, asked, _) => AsksHost(root, q, Forced(asked)) ==>
      Forced(asked).Valid() && (Vacant(root, q) ==> !HeldAs(root, Place(root, q), true))
    case Delete(q) => Removable(root, q) && HostOf(View(root, q).value).Some? ==>
      NobodyShares(root, q, HostOf(View(root, q).value).value)
    case MoveTo(q, r, found) => Found(root, q, found) && HostAgrees(root, host, found, r) ==>
      && found == q && !IntoItself(q, r) && LeavesNobody(root, host, q, r)
      && CarriedByNodes(root, Lookup(root, q).value, RenameSource(Lookup(root, q).value).value)
  }

  lemma {:induction false} PlaceIsHeld(root: Node, host: Host, q: Path)
    requires Mirror(root, host) && Full(root, host) && Vacant(root, q)
    ensures IsFile(host, Place(root, q)) <==> HeldAs(root, Place(root, q), false)
    ensures IsDir(host, Place(root, q)) <==> HeldAs(root, Place(root, q), true)
  {
    hide Mirror, View, Full;
    HostIsHeld(root, host, Parent(q), View(root, Parent(q)).value.writeable.value, Place(root, q));
  }

  /** What has to be created lands below some writeable directory. */
  lemma {:induction false} LandsBelow(root: Node, q: Path) returns (d: Path, h: Path)
    requires Landing(root, q).Some?
    ensures View(root, d) == Some(DirInfo(Some(h))) && h <= Landing(root, q).value
    decreases |q|
  {
    if View(root, q).Some? {
      d, h := q, Landing(root, q).value;
    } else {
      d, h := LandsBelow(root, Parent(q));
    }
  }

  lemma {:induction false} WayIsHeld(root: Node, host: Host, q: Path)
    requires Mirror(root, host) && Full(root, host)
    ensures FileInWay(root, host, q) <==> FileNodeInWay(root, q)
  {
    hide Mirror, View, Full, Landing;
    if View(root, q).None? && Landing(root, q).Some? {
      var d, h := LandsBelow(root, q);
      HostIsHeld(root, host, d, h, Landing(root, q).value);
    }
  }

  lemma {:induction false} MakingAllIsPrivate(root: Node, host: Host, q: Path)
    requires Mirror(root, host) && Full(root, host)
    ensures Fair(root, host, MakeAll(q)) <==> Private(root, host, MakeAll(q))
  {
    hide Mirror, Full, FileInWay, FileNodeInWay;
    assert q[..|q|] == q;
    forall i {:trigger q[..i]} | 0 < i <= |q|
      ensures FileInWay(root, host, q[..i]) <==> FileNodeInWay(root, q[..i])
    {
      WayIsHeld(root, host, q[..i]);
    }
    if q == [] {
      RootInNoWay(root, host);
    }
  }

  lemma {:induction false} RootInNoWay(root: Node, host: Host)
    ensures !FileInWay(root, host, [])
  {
  }

  /** A removable node has none below it. */
  lemma {:induction false} RemovableIsLeaf(root: Node, q: Path, s: Path)
    requires Removable(root, q) && q <= s && s != q
    ensures View(root, s).None?
  {
    if View(root, s).Some? {
      var step := StepBelow(q, s);
      assert step == q + [s[|q|]] && step <= s && Parent(step) == q;
      ViewPrefixOf(root, step, s);
      ParentIsDir(root, step);
    }
  }

  /** Whatever more the host has in a directory without nodes is that of nodes elsewhere. */
  lemma {:induction false} DeletingIsPrivate(root: Node, host: Host, q: Path, p: Path)
    requires Mirror(root, host) && Full(root, host) && Removable(root, q) && HostOf(View(root, q).value) == Some(p)
    ensures !HasMore(host, p) && Unshared(root, q, p) <==> NobodyShares(root, q, p)
  {
    MirrorAt(root, host, q);
    hide Mirror, View, Full;
    if HasMore(host, p) {
      var k :| k in host && p <= k && k != p;
      if View(root, q).value.FileInfo? {
        NothingUnderFile(host, p, k);
      }
      HeldBelow(root, host, q, p, k);
      var s :| HasHost(View(root, s), k);
      assert Shares(root, q, p, s);
    } else if !Unshared(root, q, p) {
      var s :| HasHost(View(root, s), p) && !(q <= s);
      assert Shares(root, q, p, s);
    } else {
      forall s
        ensures !Shares(root, q, p, s)
      {
        NobodySharing(root, host, q, p, s);
      }
    }
  }

  lemma {:induction false} NobodySharing(root: Node, host: Host, q: Path, p: Path, s: Path)
    requires Mirror(root, host) && Removable(root, q) && !HasMore(host, p) && Unshared(root, q, p)
    ensures !Shares(root, q, p, s)
  {
    hide Mirror, View, Removable;
    MirrorAt(root, host, s);
    if q <= s && s != q {
      RemovableIsLeaf(root, q, s);
    }
  }

  lemma {:induction false} CarriedIsHeld(root: Node, host: Host, q: Path, from: Path, x: Path)
    requires Mirror(root, host) && Full(root, host) && HasHost(View(root, q), from)
    ensures Carries(host, Lookup(root, q).value, from, x) <==> CarriedByNode(root, Lookup(root, q).value, from, x)
  {
    var n := Lookup(root, q).value;
    LookupAppends(root, q, x);
    assert View(n, x) == View(root, q + x);
    MirrorAt(root, host, q + x);
    if n.File? {
      if View(n, x).Some? {
        assert x == [] && from + x == from && q + x == q;
      }
      assert HeldAs(root, from, false);
    } else {
      HostIsHeld(root, host, q, from, from + x);
    }
  }

  lemma {:induction false} MovingIsPrivate(root: Node, host: Host, q: Path, r: Path, found: Path)
    requires Mirror(root, host) && Full(root, host)
    ensures Fair(root, host, MoveTo(q, r, found)) <==> Private(root, host, MoveTo(q, r, found))
  {
    hide Mirror, Full, View, Carries, CarriedByNode, LeavesNobody, Reached, Found;
    if HostAgrees(root, host, q, r) {
      SourceIsHost(root, q);
      var n, from := Lookup(root, q).value, RenameSource(Lookup(root, q).value).value;
      forall x
        ensures Carries(host, n, from, x) <==> CarriedByNode(root, n, from, x)
      {
        CarriedIsHeld(root, host, q, from, x);
      }
    }
  }

  /** Without leftovers a change is fair exactly if no other node shares what it adds or takes away. */
  lemma {:induction false} FairIffPrivate(root: Node, host: Host, c: Change)
    requires Mirror(root, host) && Full(root, host)
    ensures Fair(root, host, c) <==> Private(root, host, c)
  {
    hide Mirror, Full, View;
    match c
    case MakeDirectory(q) =>
      if Vacant(root, q) {
        PlaceIsHeld(root, host, q);
      }
    case MakeAll(q) => MakingAllIsPrivate(root, host, q);
    case OpenFile(q, mode, _) =>
      if Vacant(root, q) {
        PlaceIsHeld(root, host, q);
      }
    case Delete(q) =>
      if Removable(root, q) && HostOf(View(root, q).value).Some? {
        DeletingIsPrivate(root, host, q, HostOf(View(root, q).value).value);
      }
    case MoveTo(q, r, found) => MovingIsPrivate(root, host, q, r, found);
  }

  // ----- nothing is left over afterwards

  lemma {:induction false} GrowingKeepsComplete(root: Node, host: Host, root2: Node, q: Path, i: Info, e: Entry,
      s: Path)
    requires Mirror(root, host) && Full(root, host) && Vacant(root, q) && Grown(root, root2, q, i)
    requires HostOf(i) == Some(Place(root, q)) && (i.DirInfo? ==> !IsFile(host, Place(root, q)))
    ensures Complete(root2, host[Place(root, q) := e], s)
  {
    hide Mirror, View, Full;
    var p := Place(root, q);
    MirrorAt(root, host, q);
    match View(root2, s)
    case Some(DirInfo(Some(h))) =>
      forall name | h + [name] in host[p := e]
        ensures Held(root2, h + [name])
      {
        if h + [name] == p {
          Holds(root2, q, p);
        } else {
          HeldBefore(root, host, root2, q, i, s, h, name);
          HeldStays(root, root2, q, i, h + [name]);
        }
      }
    case _ =>
  }

  lemma {:induction false} HeldStays(root: Node, root2: Node, q: Path, i: Info, p: Path)
    requires View(root, q).None? && Grown(root, root2, q, i) && Held(root, p)
    ensures Held(root2, p)
  {
    hide View;
    var s :| HasHost(View(root, s), p);
    Holds(root2, s, p);
  }

  /** What the host has in a directory just created it had before, and the directory too had a node. */
  lemma {:induction false} HeldBefore(root: Node, host: Host, root2: Node, q: Path, i: Info, s: Path, h: Path,
      name: string)
    requires Mirror(root, host) && Full(root, host) && Vacant(root, q) && Grown(root, root2, q, i)
    requires HostOf(i) == Some(Place(root, q)) && (i.DirInfo? ==> !IsFile(host, Place(root, q)))
    requires View(root2, s) == Some(DirInfo(Some(h))) && h + [name] in host
    ensures Held(root, h + [name])
  {
    hide Mirror, View, Full;
    if s == q {
      HeldBelow(root, host, Parent(q), View(root, Parent(q)).value.writeable.value, h + [name]);
    } else {
      FullAt(root, host, s);
    }
  }

  lemma {:induction false} GrowingKeepsFull(root: Node, host: Host, root2: Node, q: Path, i: Info, e: Entry)
    requires Mirror(root, host) && Full(root, host) && Vacant(root, q) && Grown(root, root2, q, i)
    requires HostOf(i) == Some(Place(root, q)) && (i.DirInfo? ==> !IsFile(host, Place(root, q)))
    ensures Full(root2, host[Place(root, q) := e])
  {
    var host2 := host[Place(root, q) := e];
    forall s
      ensures Complete(root2, host2, s)
    {
      GrowingKeepsComplete(root, host, root2, q, i, e, s);
    }
  }

  lemma {:induction false} CreateDirKeepsFull(root: Node, host: Host, q: Path)
    requires Mirror(root, host) && Full(root, host) && Fair(root, host, MakeDirectory(q))
    ensures var o := CreateDir(root, host, q);
      !o.Panic? && (o.Changed? ==> Mirror(o.root, o.host) && Full(o.root, o.host))
  {
    CreateDirKeepsMirror(root, host, q);
    hide Mirror, Full, View, CreateDir;
    if Vacant(root, q) {
      var p, o := Place(root, q), CreateDir(root, host, q);
      GrowingKeepsFull(root, host, o.root, q, DirInfo(Some(p)), DirEntry);
      assert p in host ==> host[p := DirEntry] == host;
    }
  }

  lemma {:induction false} CreateAllKeepsFull(root: Node, host: Host, cs: Path, k: nat)
    requires Mirror(root, host) && Full(root, host) && k <= |cs| && View(root, cs[..k]).Some?
    requires !BlockedOnWay(root, host, cs, k) && !FileInWay(root, host, cs)
    ensures var o := CreateAll(root, host, StepsTo(cs), k);
      !o.AllPanic? && Mirror(o.root, o.host) && Full(o.root, o.host)
    decreases |cs| - k
  {
    CreateAllKeepsMirror(root, host, cs, k);
    hide Mirror, Full, View, CreateDir, Landing;
    assert cs[..|cs|] == cs;
    if k < |cs| {
      var q := cs[..k + 1];
      PrefixStep(cs, k);
      CreateDirKeepsMirror(root, host, q);
      if View(root, q).Some? {
        CreateAllKeepsFull(root, host, cs, k + 1);
      } else if Vacant(root, q) {
        MakingOneMore(root, host, cs, k);
      } else {
        NotVacant(root, host, cs, k);
      }
    }
  }

  lemma {:induction false} MakingOneMore(root: Node, host: Host, cs: Path, k: nat)
    requires Mirror(root, host) && Full(root, host) && k < |cs| && Vacant(root, cs[..k + 1])
    requires !BlockedOnWay(root, host, cs, k) && !FileInWay(root, host, cs)
    ensures var o := CreateAll(root, host, StepsTo(cs), k); !o.AllPanic? ==> Full(o.root, o.host)
    decreases |cs| - k, 0
  {
    var q := cs[..k + 1];
    var p := Place(root, q);
    PrefixStep(cs, k);
    CreateDirKeepsMirror(root, host, q);
    LandsInPlace(root, q);
    hide Mirror, Full, View, CreateDir, Landing;
    var o := CreateDir(root, host, q);
    assert cs[..|cs|] == cs;
    assert !FileInWay(root, host, cs[..k + 1]);
    CreateDirKeepsFull(root, host, q);
    forall i {:trigger cs[..i]} | k + 1 < i <= |cs|
      ensures !FileInWay(o.root, o.host, cs[..i])
    {
      WayStays(root, host, o.root, o.host, p, cs, k, i);
    }
    if k + 1 == |cs| {
      assert View(o.root, cs).Some?;
    }
    CreateAllKeepsFull(o.root, o.host, cs, k + 1);
  }

  lemma {:induction false} SameEntriesKeepFull(root: Node, host: Host, host2: Host)
    requires Full(root, host) && host2.Keys == host.Keys
    ensures Full(root, host2)
  {
    hide View;
    forall q
      ensures Complete(root, host2, q)
    {
      FullAt(root, host, q);
    }
  }

  lemma {:induction false} OpenKeepsFull(root: Node, host: Host, q: Path, asked: Mode, contents: nat)
    requires Mirror(root, host) && Full(root, host) && Open(root, host, q, asked, contents).Opened?
    ensures var o := Open(root, host, q, asked, contents); Full(o.root, o.host)
  {
    OpenKeepsMirror(root, host, q, asked, contents);
    hide Mirror, Full, View, Open, Grown, Vacant, Place;
    var o := Open(root, host, q, asked, contents);
    if Vacant(root, q) {
      var p := Place(root, q);
      GrowingKeepsFull(root, host, o.root, q, FileInfo(HostFile(p), true), o.host[p]);
      assert o.host == host[p := o.host[p]];
    } else {
      SameEntries(root, host, q, asked, contents, o);
      SameEntriesKeepFull(root, host, o.host);
    }
  }

  lemma {:induction false} RemovedComplete(root: Node, host: Host, root2: Node, host2: Host, q: Path, s: Path)
    requires Full(root, host) && Removed(root, host, root2, host2, q) && Removable(root, q)
    ensures Complete(root2, host2, s)
  {
    hide Mirror, View, Full, Removable;
    FullAt(root, host, s);
    match View(root2, s)
    case Some(DirInfo(Some(h))) =>
      forall name | h + [name] in host2
        ensures Held(root2, h + [name])
      {
        var t :| HasHost(View(root, t), h + [name]);
        if q <= t && t != q {
          RemovableIsLeaf(root, q, t);
        }
        Holds(root2, t, h + [name]);
      }
    case _ =>
  }

  lemma {:induction false} RemoveKeepsFull(root: Node, host: Host, q: Path)
    requires Mirror(root, host) && Full(root, host) && RemoveNode(root, host, q).Changed?
    ensures var o := RemoveNode(root, host, q); Full(o.root, o.host)
  {
    RemoveKeepsMirror(root, host, q);
    hide Mirror, RemoveNode, View, Full, Removable;
    var o := RemoveNode(root, host, q);
    forall s
      ensures Complete(o.root, o.host, s)
    {
      RemovedComplete(root, host, o.root, o.host, q, s);
    }
  }

  // ----- moving

  /** The node at `s` is there after the move, where it was or at the target. */
  predicate Remains(m: Move, s: Path) {
    View(m.root, s).Some? && (m.q <= s || !(m.r <= s))
  }

  /**
   The node at `s` is overwritten by the move, and none remains that stands for its host entry, while one does
   for the directory that this is in.
   */
  ghost predicate Orphaned(m: Move, s: Path) {
    && View(m.root, s).Some? && !Remains(m, s) && HostOf(View(m.root, s).value).Some?
    && var g := HostOf(View(m.root, s).value).value;
    g != m.to && g != [] && HasRemaining(m, Parent(g)) && !HasRemaining(m, g)
  }

  ghost predicate HasRemaining(m: Move, g: Path) {
    exists d {:trigger Remains(m, d)} :: Remains(m, d) && HasHost(View(m.root, d), g)
  }

  ghost predicate OrphansNone(m: Move) {
    forall s {:trigger Orphaned(m, s)} :: !Orphaned(m, s)
  }

  lemma {:induction false} OrphansNoneAt(m: Move, s: Path)
    requires OrphansNone(m)
    ensures !Orphaned(m, s)
  {
  }

  /** A host entry in a directory that remains has a node that remains. */
  lemma {:induction false} StillHeld(m: Move, d: Path, h: Path, name: string)
    requires Movable(m) && Full(m.root, m.host) && OrphansNone(m) && Remains(m, d)
    requires View(m.root, d) == Some(DirInfo(Some(h))) && h + [name] in m.host && h + [name] != m.to
    ensures HasRemaining(m, h + [name])
  {
    hide Mirror, View, Full, OrphansNone;
    FullAt(m.root, m.host, d);
    var t :| HasHost(View(m.root, t), h + [name]);
    ParentOf(h, name);
    if !Remains(m, t) {
      OrphansNoneAt(m, t);
      assert HasRemaining(m, h);
    }
  }

  /** All the host has at and under the moved host path has a node that remains. */
  lemma {:induction false} SourceStillHeld(m: Move, k: Path)
    requires Movable(m) && Full(m.root, m.host) && OrphansNone(m) && m.from <= k && k in m.host
    ensures HasRemaining(m, k)
    decreases |k|
  {
    hide Mirror, View, Full, OrphansNone;
    MirrorAt(m.root, m.host, m.q);
    if k == m.from {
      assert Remains(m, m.q);
    } else {
      ProperPrefixOf(m.from, k);
      assert Placed(m.host, k);
      SourceStillHeld(m, Parent(k));
      var d :| Remains(m, d) && HasHost(View(m.root, d), Parent(k));
      HolderKind(m.root, m.host, d, Parent(k));
      ParentName(k);
      assert k != m.to by { PrefixSameLength(m.from, k); }
      StillHeld(m, d, Parent(k), Name(k));
    }
  }

  /** A node that remains stands for the same entry afterwards, or for that entry at its new place. */
  lemma {:induction false} HeldAfter(m: Move, root2: Node, g: Path)
    requires Movable(m) && Rerooted(m, root2) && MountFree(MovedNode(m), m.from) && NobodyLeft(m)
    requires HasRemaining(m, g)
    ensures m.from <= g ==> Held(root2, m.to + g[|m.from|..])
    ensures !(m.from <= g) ==> Held(root2, g)
  {
    hide Mirror, View, Reached;
    var t :| Remains(m, t) && HasHost(View(m.root, t), g);
    if Stays(m, t) {
      assert LeftBehind(m, t) <==> m.from <= g;
      var u := if m.q <= t then m.r + t[|m.q|..] else t;
      if m.q <= t {
        ViewBelow(m, t[|m.q|..]);
        assert m.q + t[|m.q|..] == t && m.r <= u && u[|m.r|..] == t[|m.q|..];
      }
      Holds(root2, u, g);
      assert m.from == m.to && m.from <= g ==> m.to + g[|m.from|..] == g;
    } else {
      var x := t[|m.q|..];
      ViewBelow(m, x);
      assert m.q + x == t && m.r <= m.r + x && (m.r + x)[|m.r|..] == x;
      assert Joined(MovedNode(m), m.from, x);
      assert g == m.from + x && g[|m.from|..] == x;
      Holds(root2, m.r + x, m.to + x);
    }
  }

  /** The directory of the host path `h` after the move, if not moved itself, was one that remains. */
  lemma {:induction false} DirectoryBefore(m: Move, root2: Node, s: Path, h: Path) returns (d: Path)
    requires Movable(m) && Rerooted(m, root2) && View(root2, s) == Some(DirInfo(Some(h))) && !(m.to <= h)
    ensures Remains(m, d) && View(m.root, d) == Some(DirInfo(Some(h)))
  {
    hide Mirror, View, Reached;
    if m.r <= s {
      ViewBelow(m, s[|m.r|..]);
      d := m.q + s[|m.r|..];
    } else {
      d := s;
    }
  }

  lemma {:induction false} MovedEntryHeld(m: Move, root2: Node, s: Path, h: Path, name: string)
    requires Movable(m) && Full(m.root, m.host) && OrphansNone(m) && MountFree(MovedNode(m), m.from) && NobodyLeft(m)
    requires Rerooted(m, root2) && View(root2, s) == Some(DirInfo(Some(h))) && h + [name] in HostAfter(m)
    ensures Held(root2, h + [name])
  {
    hide Mirror, View, Reached, HostAfter, Full, OrphansNone, MountFree, NobodyLeft, Rerooted;
    var p := h + [name];
    HostAfterAt(m, p);
    if m.to <= p {
      var y := p[|m.to|..];
      SourceStillHeld(m, m.from + y);
      HeldAfter(m, root2, m.from + y);
      assert (m.from + y)[|m.from|..] == y && m.to + y == p;
    } else {
      var d := DirectoryBefore(m, root2, s, h);
      StillHeld(m, d, h, name);
      HeldAfter(m, root2, p);
    }
  }

  lemma {:induction false} MovedComplete(m: Move, root2: Node, s: Path)
    requires Movable(m) && Full(m.root, m.host) && OrphansNone(m) && MountFree(MovedNode(m), m.from) && NobodyLeft(m)
    requires Rerooted(m, root2)
    ensures Complete(root2, HostAfter(m), s)
  {
    hide Mirror, View, Reached, HostAfter, Full, OrphansNone, MountFree, NobodyLeft, Rerooted, Movable;
    match View(root2, s)
    case Some(DirInfo(Some(h))) =>
      forall name | h + [name] in HostAfter(m)
        ensures Held(root2, h + [name])
      {
        MovedEntryHeld(m, root2, s, h, name);
      }
    case _ =>
  }

  // ----- what is left over by a move

  /** What stands for an entry afterwards stood for it before, or for the one that has been moved there. */
  lemma {:induction false} HeldBack(m: Move, root2: Node, g: Path)
    requires Movable(m) && Rerooted(m, root2) && MountFree(MovedNode(m), m.from) && Held(root2, g)
    ensures HasRemaining(m, g) || (m.to <= g && HasRemaining(m, m.from + g[|m.to|..]))
  {
    hide Mirror, View, Reached;
    var u :| HasHost(View(root2, u), g);
    if m.r <= u {
      var x := u[|m.r|..];
      ViewBelow(m, x);
      assert Remains(m, m.q + x);
      if Reached(MovedNode(m), x) {
        assert Joined(MovedNode(m), m.from, x);
        assert g == m.to + x && g[|m.to|..] == x;
      }
    } else {
      assert Remains(m, u);
    }
  }

  /** Whatever has a host path at or under that of the target has just that one. */
  lemma {:induction false} RemainingAtTarget(m: Move, g: Path)
    requires Movable(m) && m.to <= g
    ensures HasRemaining(m, g) && m.from != m.to ==> g == m.to
  {
    hide Mirror, View;
    if HasRemaining(m, g) && m.from != m.to {
      var t :| Remains(m, t) && HasHost(View(m.root, t), g);
      MirrorAt(m.root, m.host, t);
      NothingUnder(m.host, m.to, g);
    }
  }

  /** The directory with the host path `h` after the move. */
  lemma {:induction false} DirectoryAfter(m: Move, root2: Node, h: Path) returns (u: Path)
    requires Mirror(root2, HostAfter(m)) && Held(root2, h) && IsDir(HostAfter(m), h)
    ensures View(root2, u) == Some(DirInfo(Some(h)))
  {
    hide Mirror, View, HostAfter;
    u :| HasHost(View(root2, u), h);
    HolderKind(root2, HostAfter(m), u, h);
  }

  /** The host entry of an orphaned node is left over, where it was or where it has been moved. */
  lemma {:induction false} OrphanIsLeftOver(m: Move, root2: Node, s: Path)
    requires Movable(m) && MountFree(MovedNode(m), m.from) && NobodyLeft(m) && Rerooted(m, root2)
    requires Mirror(root2, HostAfter(m)) && Orphaned(m, s)
    ensures !Full(root2, HostAfter(m))
  {
    hide Mirror, View, Reached, HostAfter, Full, MountFree, NobodyLeft, Rerooted;
    MirrorAt(m.root, m.host, s);
    var g := HostOf(View(m.root, s).value).value;
    ParentName(g);
    assert Placed(m.host, g);
    HeldAfter(m, root2, Parent(g));
    MirrorAt(root2, HostAfter(m), s);
    if m.from <= Parent(g) {
      MovedOrphan(m, root2, g);
    } else {
      StayingOrphan(m, root2, g);
    }
  }

  lemma {:induction false} MovedOrphan(m: Move, root2: Node, g: Path)
    requires Movable(m) && MountFree(MovedNode(m), m.from) && Rerooted(m, root2) && Mirror(root2, HostAfter(m))
    requires g != [] && g in m.host && m.from <= Parent(g) && !HasRemaining(m, g)
    requires Held(root2, m.to + Parent(g)[|m.from|..])
    ensures !Full(root2, HostAfter(m))
  {
    hide Mirror, View, Reached, HostAfter, Full, MountFree, Rerooted;
    var y := g[|m.from|..];
    PrefixOfParent(m.from, g);
    assert y != [] && Parent(g)[|m.from|..] == Parent(y) && m.from + y == g;
    var p2 := m.to + y;
    assert Parent(p2) == m.to + Parent(y) && p2[|m.to|..] == y;
    HostAfterAt(m, p2);
    MirrorAt(root2, HostAfter(m), []);
    assert Placed(HostAfter(m), p2);
    if Full(root2, HostAfter(m)) {
      LeftOverHeld(m, root2, p2);
      HeldBack(m, root2, p2);
      RemainingAtTarget(m, p2);
    }
  }

  lemma {:induction false} LeftOverHeld(m: Move, root2: Node, p: Path)
    requires Mirror(root2, HostAfter(m)) && Full(root2, HostAfter(m))
    requires p != [] && p in HostAfter(m) && Held(root2, Parent(p)) && IsDir(HostAfter(m), Parent(p))
    ensures Held(root2, p)
  {
    hide Mirror, View, HostAfter, Full;
    var u := DirectoryAfter(m, root2, Parent(p));
    FullAt(root2, HostAfter(m), u);
    ParentName(p);
  }

  lemma {:induction false} StayingOrphan(m: Move, root2: Node, g: Path)
    requires Movable(m) && MountFree(MovedNode(m), m.from) && Rerooted(m, root2) && Mirror(root2, HostAfter(m))
    requires g != [] && g in m.host && !(m.from <= Parent(g)) && !HasRemaining(m, g) && g != m.to
    requires Held(root2, Parent(g))
    ensures !Full(root2, HostAfter(m))
  {
    hide Mirror, View, Reached, HostAfter, Full, MountFree, Rerooted;
    assert Remains(m, m.q) && HasHost(View(m.root, m.q), m.from);
    assert !(m.from <= g) by {
      if m.from <= g {
        ProperPrefixIf(m.from, g);
      }
    }
    TargetNotAbove(m);
    assert !(m.to <= g) by {
      if m.to <= g {
        NothingUnder(m.host, m.to, g);
      }
    }
    HostAfterAt(m, g);
    MirrorAt(root2, HostAfter(m), []);
    assert Placed(HostAfter(m), g);
    if Full(root2, HostAfter(m)) {
      LeftOverHeld(m, root2, g);
      HeldBack(m, root2, g);
    }
  }

  lemma {:induction false} ProperPrefixIf(a: Path, k: Path)
    requires a <= k && k != [] && !(a <= Parent(k))
    ensures a == k
  {
    if a != k {
      ProperPrefixOf(a, k);
    }
  }

  /** Nothing is mounted in what is renamed, and it overwrites no node that is needed. */
  ghost predicate Sparing(root: Node, host: Host, c: Change) {
    match c
    case MoveTo(q, r, found) => found == q && HostAgrees(root, host, q, r) ==>
      && MountFree(Lookup(root, q).value, RenameSource(Lookup(root, q).value).value)
      && OrphansNone(MoveOf(root, host, q, r))
    case _ => true
  }

  /** A fair rename without mounts leaves nothing over exactly if it orphans no host entry. */
  lemma {:induction false} RenameKeepsFullIff(root: Node, host: Host, q: Path, r: Path)
    requires Mirror(root, host) && Full(root, host) && HostAgrees(root, host, q, r)
    requires Fair(root, host, MoveTo(q, r, q)) && MountFree(Lookup(root, q).value,
      RenameSource(Lookup(root, q).value).value)
    ensures var o := Rename(root, host, q, r);
      o.Changed? && (Full(o.root, o.host) <==> OrphansNone(MoveOf(root, host, q, r)))
  {
    RenameViews(root, host, q, r);
    AgreedIsMovable(root, host, q, r);
    SourceIsHost(root, q);
    FindsItself(root, q);
    MovingIsFair(root, host, q, r, q);
    hide Mirror, View, Rename, Movable, Rerooted, Full, Carried, OrphansNone, MountFree, NobodyLeft;
    var m := MoveOf(root, host, q, r);
    var root2 := Rename(root, host, q, r).root;
    if OrphansNone(m) {
      forall s
        ensures Complete(root2, HostAfter(m), s)
      {
        MovedComplete(m, root2, s);
      }
      FullIfComplete(root2, HostAfter(m));
    } else {
      var s := SomeOrphan(m);
      OrphanIsLeftOver(m, root2, s);
    }
  }

  lemma {:induction false} SomeOrphan(m: Move) returns (s: Path)
    requires !OrphansNone(m)
    ensures Orphaned(m, s)
  {
    s :| Orphaned(m, s);
  }

  lemma {:induction false} RenameKeepsFull(root: Node, host: Host, q: Path, r: Path)
    requires Mirror(root, host) && Full(root, host) && Rename(root, host, q, r).Changed?
    requires Fair(root, host, MoveTo(q, r, q)) && Sparing(root, host, MoveTo(q, r, q))
    ensures var o := Rename(root, host, q, r); Full(o.root, o.host)
  {
    hide Mirror, Full, MountFree, OrphansNone;
    if HostAgrees(root, host, q, r) {
      RenameKeepsFullIff(root, host, q, r);
    } else {
      RefusedUnlessAgreed(root, host, Lookup(root, q).value, q, r);
    }
  }

  lemma {:induction false} FairKeepsFull(root: Node, host: Host, c: Change)
    requires Mirror(root, host) && Full(root, host) && Fair(root, host, c) && Sparing(root, host, c)
    ensures var o := Apply(root, host, c); o.Changed? ==> Full(o.root, o.host)
  {
    hide Mirror, Full, CreateDir, CreateAll, Open, RemoveNode, Rename, View, OpenFails;
    if Apply(root, host, c).Changed? {
      match c
      case MakeDirectory(q) => CreateDirKeepsFull(root, host, q);
      case MakeAll(q) =>
        RootIsThere(root, q);
        CreateAllKeepsFull(root, host, q, 0);
      case OpenFile(q, mode, contents) => OpenKeepsFull(root, host, q, mode, contents);
      case Delete(q) => RemoveKeepsFull(root, host, q);
      case MoveTo(q, r, found) =>
        RenameAnyCaseIs(root, host, q, r, found);
        RenameKeepsFull(root, host, q, r);
    }
  }

  // ----- histories

  /** The state after private, sparing changes. */
  ghost predicate PrivateHistory(root: Node, host: Host, changes: seq<Change>, root2: Node, host2: Host)
    decreases |changes|
  {
    if changes == [] then root2 == root && host2 == host
    else
      Private(root, host, changes[0]) && Sparing(root, host, changes[0]) && match Apply(root, host, changes[0])
        case Changed(r, h) => PrivateHistory(r, h, changes[1..], root2, host2)
        case Refused(_) => PrivateHistory(root, host, changes[1..], root2, host2)
        case Panic => false
  }

  /**
   From a state without leftovers, after any changes of which none took away or took the place of what other
   nodes share, the next one fails unexpectedly, or makes some node fail, exactly if it does so.
   */
  lemma {:induction false} NothingFailsIffPrivate(root: Node, host: Host, changes: seq<Change>, root2: Node,
      host2: Host, next: Change)
    requires Mirror(root, host) && Full(root, host) && PrivateHistory(root, host, changes, root2, host2)
    ensures Mirror(root2, host2) && Full(root2, host2)
    ensures var o := Apply(root2, host2, next);
      Private(root2, host2, next) <==> !o.Panic? && (o.Changed? ==> forall q :: !Unusable(o.root, o.host, q))
    decreases |changes|
  {
    hide Mirror, Full, Apply, Private, Sparing, Fair, Unusable;
    if changes == [] {
      FairIffPrivate(root, host, next);
      FairIffNothingFails(root, host, next);
    } else {
      FairIffPrivate(root, host, changes[0]);
      ChangeKeepsMirrorIffFair(root, host, changes[0]);
      FairKeepsFull(root, host, changes[0]);
      match Apply(root, host, changes[0])
      case Changed(r, h) => NothingFailsIffPrivate(r, h, changes[1..], root2, host2, next);
      case Refused(_) => NothingFailsIffPrivate(root, host, changes[1..], root2, host2, next);
    }
  }
}
