/** The guest file tree of src/fs.rs as a value, seen through the paths that lead to its nodes. */
module FileTree {
  import opened Common

  type Path = seq<string>

  datatype Location = HostFile(path: Path) | IpaFile(ref: nat) | ResourceFile(name: string)

  datatype Node =
    | File(location: Location, canWrite: bool)
    | Directory(children: map<string, Node>, writeable: Option<Path>)

  /** A node without its children. */
  datatype Info = FileInfo(location: Location, canWrite: bool) | DirInfo(writeable: Option<Path>)

  function InfoOf(n: Node): Info {
    match n
    case File(location, canWrite) => FileInfo(location, canWrite)
    case Directory(_, writeable) => DirInfo(writeable)
  }

  /** The host path of a node that is a host file or a writeable directory. */
  function HostOf(i: Info): Option<Path> {
    match i
    case FileInfo(HostFile(p), _) => Some(p)
    case DirInfo(w) => w
    case _ => None
  }

  function Lookup(n: Node, q: Path): Option<Node>
    decreases |q|
  {
    if q == [] then Some(n)
    else if n.Directory? && q[0] in n.children then Lookup(n.children[q[0]], q[1..])
    else None
  }

  function View(n: Node, q: Path): Option<Info> {
    match Lookup(n, q) case None => None case Some(m) => Some(InfoOf(m))
  }

  function Parent(q: Path): Path
    requires q != []
  {
    q[..|q| - 1]
  }

  function Name(q: Path): string
    requires q != []
  {
    q[|q| - 1]
  }

  predicate HasParent(n: Node, q: Path) {
    q != [] && Lookup(n, Parent(q)).Some? && Lookup(n, Parent(q)).value.Directory?
  }

  /** The tree with `c` at `q`, whatever was there before. */
  function Insert(n: Node, q: Path, c: Node): Node
    requires HasParent(n, q)
    decreases |q|
  {
    if |q| == 1 then n.(children := n.children[q[0] := c])
    else
      ParentOfTail(n, q);
      n.(children := n.children[q[0] := Insert(n.children[q[0]], q[1..], c)])
  }

  /** The tree without the node at `q`. */
  function Remove(n: Node, q: Path): Node
    requires HasParent(n, q)
    decreases |q|
  {
    if |q| == 1 then n.(children := n.children - {q[0]})
    else
      ParentOfTail(n, q);
      n.(children := n.children[q[0] := Remove(n.children[q[0]], q[1..])])
  }

  lemma {:induction false} ParentOfTail(n: Node, q: Path)
    requires HasParent(n, q) && |q| > 1
    ensures n.Directory? && q[0] in n.children && HasParent(n.children[q[0]], q[1..])
  {
    assert Parent(q)[0] == q[0] && Parent(q)[1..] == Parent(q[1..]);
  }

  /** `update_host_paths_recursively` */
  function Rebase(n: Node, h: Path): Node
    decreases n
  {
    match n
    case File(HostFile(_), canWrite) => File(HostFile(h), canWrite)
    case Directory(children, Some(_)) => Directory(map name | name in children ::
      Rebase(children[name], h + [name]), Some(h))
    case _ => n
  }

  // ----- views of changed trees

  lemma {:induction false} LookupAppends(n: Node, q: Path, s: Path)
    ensures Lookup(n, q + s) == match Lookup(n, q) { case None => None case Some(m) => Lookup(m, s) }
    decreases |q|
  {
    if q == [] {
      assert q + s == s;
    } else {
      assert (q + s)[0] == q[0] && (q + s)[1..] == q[1..] + s;
      if n.Directory? && q[0] in n.children {
        LookupAppends(n.children[q[0]], q[1..], s);
      }
    }
  }

  lemma {:induction false} ViewInsert(n: Node, q: Path, c: Node, s: Path)
    requires HasParent(n, q)
    ensures View(Insert(n, q, c), s) == if q <= s then View(c, s[|q|..]) else View(n, s)
    decreases |q|
  {
    if |q| == 1 {
      if s != [] {
        assert q <= s <==> s[0] == q[0];
      }
    } else {
      ParentOfTail(n, q);
      if s != [] && s[0] == q[0] {
        ViewInsert(n.children[q[0]], q[1..], c, s[1..]);
        assert q <= s <==> q[1..] <= s[1..] by { PrefixTail(q, s); }
        if q <= s {
          assert s[1..][|q| - 1..] == s[|q|..];
        }
      }
    }
  }

  lemma {:induction false} PrefixTail(q: Path, s: Path)
    requires q != [] && s != [] && q[0] == s[0]
    ensures q <= s <==> q[1..] <= s[1..]
  {
    if q[1..] <= s[1..] {
      assert s == [s[0]] + s[1..] && q == [q[0]] + q[1..];
      assert forall i :: 1 <= i < |q| ==> q[i] == q[1..][i - 1] == s[1..][i - 1] == s[i];
    }
  }

  lemma {:induction false} ViewRemove(n: Node, q: Path, s: Path)
    requires HasParent(n, q)
    ensures View(Remove(n, q), s) == if q <= s then None else View(n, s)
    decreases |q|
  {
    if |q| == 1 {
      if s != [] {
        assert q <= s <==> s[0] == q[0];
      }
    } else {
      ParentOfTail(n, q);
      if s != [] && s[0] == q[0] {
        ViewRemove(n.children[q[0]], q[1..], s[1..]);
        PrefixTail(q, s);
      }
    }
  }

  /** `s` is reached from `n` through writeable directories only, so `update_host_paths_recursively` gets there. */
  predicate Reached(n: Node, s: Path)
    decreases |s|
  {
    s == [] || (n.Directory? && n.writeable.Some? && s[0] in n.children && Reached(n.children[s[0]], s[1..]))
  }

  function MovedInfo(i: Info, h: Path): Info {
    match i
    case FileInfo(HostFile(_), canWrite) => FileInfo(HostFile(h), canWrite)
    case DirInfo(Some(_)) => DirInfo(Some(h))
    case _ => i
  }

  lemma {:induction false} ViewRebase(n: Node, h: Path, s: Path)
    ensures View(Rebase(n, h), s) == match View(n, s)
      case None => None
      case Some(i) => Some(if Reached(n, s) then MovedInfo(i, h + s) else i)
    decreases |s|
  {
    if s == [] {
      assert h + s == h;
    } else if n.Directory? && n.writeable.Some? && s[0] in n.children {
      ViewRebase(n.children[s[0]], h + [s[0]], s[1..]);
      assert h + [s[0]] + s[1..] == h + s;
    }
  }

  /** Every node has its parent directory. */
  lemma {:induction false} ViewParent(n: Node, q: Path)
    requires q != [] && View(n, q).Some?
    ensures HasParent(n, q) && View(n, Parent(q)).Some? && View(n, Parent(q)).value.DirInfo?
    ensures Name(q) in Lookup(n, Parent(q)).value.children
  {
    LookupAppends(n, Parent(q), [Name(q)]);
    assert Parent(q) + [Name(q)] == q;
  }

  lemma {:induction false} ViewPrefix(n: Node, q: Path, s: Path)
    requires View(n, s).Some? && q <= s
    ensures View(n, q).Some?
  {
    LookupAppends(n, q, s[|q|..]);
    assert q + s[|q|..] == s;
  }
}
