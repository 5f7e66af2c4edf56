/**
 Recursive enumeration of the guest file tree and the lookup of files by bare name (src/fs.rs), for
 every order in which the hash maps of children may be walked.
 */
module NameIndex {
  import opened Common
  import opened GuestPaths
  import opened FileTree
  import opened NodeLookup

  // ----- enumeration

  /** The order in which a map of children is walked. */
  type Order = map<string, Node> -> seq<string>

  /** Walking a map gives each of its keys once. */
  ghost predicate WalksAll(order: Order) {
    forall m {:trigger order(m)} :: NoRepeats(order(m)) && forall k :: k in order(m) <==> k in m
  }

  /** The paths of what is at and under the named children of `n`, each directory before its contents. */
  function Walk(n: Node, names: seq<string>, prefix: Path, order: Order): seq<Path>
    requires n.Directory? && forall k :: k in names ==> k in n.children
    requires forall m {:trigger order(m)} :: forall k :: k in order(m) <==> k in m
    decreases n, |names|
  {
    if names == [] then []
    else
      var q := prefix + [names[0]];
      var child := n.children[names[0]];
      var inside := if child.Directory? then Walk(child, order(child.children), q, order) else [];
      [q] + inside + Walk(n, names[1..], prefix, order)
  }

  /** One level of the walk: a directory and the names in it still to come. */
  datatype Frame = Frame(node: Node, names: seq<string>)

  ghost predicate FrameOk(f: Frame) {
    f.node.Directory? && forall k :: k in f.names ==> k in f.node.children
  }

  ghost predicate FramesOk(frames: seq<Frame>) {
    forall i :: 0 <= i < |frames| ==> FrameOk(frames[i])
  }

  /** What is still to be walked, innermost level first. */
  ghost function Remaining(frames: seq<Frame>, components: Path, order: Order): seq<Path>
    requires FramesOk(frames) && WalksAll(order) && (frames == [] || |components| == |frames| - 1)
    decreases |frames|
  {
    if frames == [] then []
    else
      var top := frames[|frames| - 1];
      Walk(top.node, top.names, components, order)
      + if |frames| == 1 then [] else Remaining(frames[..|frames| - 1], components[..|components| - 1], order)
  }

  /** What remains below the innermost level. */
  ghost function RemainingBelow(frames: seq<Frame>, components: Path, order: Order): seq<Path>
    requires FramesOk(frames) && WalksAll(order) && |components| == |frames|
  {
    if frames == [] then [] else Remaining(frames, components[..|components| - 1], order)
  }

  lemma {:induction false} RemainingPush(frames: seq<Frame>, top: Frame, components: Path, order: Order)
    requires FramesOk(frames) && FrameOk(top) && WalksAll(order) && |components| == |frames|
    ensures FramesOk(frames + [top])
    ensures Remaining(frames + [top], components, order) ==
      Walk(top.node, top.names, components, order) + RemainingBelow(frames, components, order)
  {
    hide Walk, WalksAll;
    var all := frames + [top];
    assert all[|all| - 1] == top && all[..|all| - 1] == frames;
  }

  /** The innermost level without its first name. */
  function Advanced(f: Frame): Frame
    requires f.names != []
  {
    Frame(f.node, f.names[1..])
  }

  lemma {:induction false} WalkStep(f: Frame, components: Path, order: Order)
    requires FrameOk(f) && WalksAll(order) && f.names != []
    ensures FrameOk(Advanced(f)) && f.names[0] in f.node.children
    ensures var child := f.node.children[f.names[0]]; var q := components + [f.names[0]];
      Walk(f.node, f.names, components, order) ==
      [q] + ((if child.Directory? then Walk(child, order(child.children), q, order) else [])
        + Walk(f.node, f.names[1..], components, order))
  {
  }

  lemma {:induction false} Associate<T>(a: seq<T>, b: seq<T>, c: seq<T>)
    ensures (a + b) + c == a + (b + c)
  {
  }

  lemma {:induction false} StepFile(below: seq<Frame>, top: Frame, components: Path, order: Order)
    requires FramesOk(below) && FrameOk(top) && WalksAll(order) && |components| == |below| && top.names != []
    requires top.names[0] in top.node.children && top.node.children[top.names[0]].File?
    ensures FramesOk(below + [top]) && FrameOk(Advanced(top)) && FramesOk(below + [Advanced(top)])
    ensures Remaining(below + [top], components, order) ==
      [components + [top.names[0]]] + Remaining(below + [Advanced(top)], components, order)
  {
    hide Walk, Remaining;
    WalkStep(top, components, order);
    RemainingPush(below, top, components, order);
    RemainingPush(below, Advanced(top), components, order);
    Associate([components + [top.names[0]]], Walk(top.node, top.names[1..], components, order),
      RemainingBelow(below, components, order));
  }

  lemma {:induction false} StepDirectory(below: seq<Frame>, top: Frame, components: Path, order: Order)
    requires FramesOk(below) && FrameOk(top) && WalksAll(order) && |components| == |below| && top.names != []
    requires top.names[0] in top.node.children && top.node.children[top.names[0]].Directory?
    ensures var child := top.node.children[top.names[0]]; var inner := Frame(child, order(child.children));
      var q := components + [top.names[0]];
      && FramesOk(below + [top]) && FrameOk(Advanced(top)) && FrameOk(inner)
      && FramesOk(below + [Advanced(top)] + [inner])
      && Remaining(below + [top], components, order) == [q] + Remaining(below + [Advanced(top)] + [inner], q, order)
  {
    var child := top.node.children[top.names[0]];
    var inner := Frame(child, order(child.children));
    var q := components + [top.names[0]];
    assert FrameOk(inner);
    hide Walk, WalksAll, Remaining, FramesOk, FrameOk;
    WalkStep(top, components, order);
    RemainingPush(below, top, components, order);
    RemainingPush(below, Advanced(top), components, order);
    RemainingPush(below + [Advanced(top)], inner, q, order);
    assert q[..|q| - 1] == components;
    var inside := Walk(child, order(child.children), q, order);
    var others := Walk(top.node, top.names[1..], components, order);
    var rest := RemainingBelow(below, components, order);
    assert RemainingBelow(below + [Advanced(top)], q, order) == others + rest;
    hide RemainingBelow;
    Associate([q], inside + others, rest);
    Associate(inside, others, rest);
  }

  lemma {:induction false} StepUp(below: seq<Frame>, top: Frame, components: Path, order: Order)
    requires FramesOk(below) && FrameOk(top) && WalksAll(order) && |components| == |below| && top.names == []
    ensures FramesOk(below + [top]) && Remaining(below + [top], components, order) ==
      RemainingBelow(below, components, order)
  {
    RemainingPush(below, top, components, order);
  }

  /** What has been listed and what remains make up the whole. */
  ghost predicate OnTrack(paths: seq<Path>, frames: seq<Frame>, components: Path, order: Order, goal: seq<Path>) {
    WalksAll(order) && FramesOk(frames) && |components| == |frames| - 1
      && paths + Remaining(frames, components, order) == goal
  }

  ghost function Left(frames: seq<Frame>, components: Path, order: Order): nat {
    if WalksAll(order) && FramesOk(frames) && |components| == |frames| - 1 then |Remaining(frames, components, order)|
      else 0
  }

  lemma {:induction false} ListOne(paths: seq<Path>, frames: seq<Frame>, components: Path, order: Order,
      goal: seq<Path>,
      q: Path, frames2: seq<Frame>, components2: Path)
    requires OnTrack(paths, frames, components, order, goal) && FramesOk(frames2) && |components2| == |frames2| - 1
    requires Remaining(frames, components, order) == [q] + Remaining(frames2, components2, order)
    ensures OnTrack(paths + [q], frames2, components2, order, goal)
      && Left(frames2, components2, order) < Left(frames, components, order)
  {
    hide Remaining, FramesOk, WalksAll;
    Associate(paths, [q], Remaining(frames2, components2, order));
  }

  lemma {:induction false} GoUp(paths: seq<Path>, below: seq<Frame>, top: Frame, components: Path, order: Order,
      goal: seq<Path>)
    requires OnTrack(paths, below + [top], components, order, goal) && FramesOk(below) && FrameOk(top)
      && top.names == []
    ensures below == [] ==> paths == goal
    ensures below != [] ==> OnTrack(paths, below, components[..|components| - 1], order, goal)
    ensures below != [] ==> Left(below, components[..|components| - 1], order) == Left(below + [top], components, order)
  {
    hide Remaining, WalksAll;
    StepUp(below, top, components, order);
    assert paths + [] == paths;
  }

  lemma {:induction false} Innermost(frames: seq<Frame>)
    requires FramesOk(frames) && frames != []
    ensures FramesOk(frames[..|frames| - 1]) && FrameOk(frames[|frames| - 1])
      && frames == frames[..|frames| - 1] + [frames[|frames| - 1]]
  {
  }

  /** `enumerate_recursive`, below a directory: a loop over a stack of iterators and one of components. */
  method EnumerateRecursive(n: Node, order: Order) returns (paths: seq<Path>)
    requires n.Directory? && WalksAll(order)
    ensures paths == Walk(n, order(n.children), [], order)
  {
    paths := [];
    var components: Path := [];
    var frames := [Frame(n, order(n.children))];
    ghost var goal := Walk(n, order(n.children), [], order);
    assert FrameOk(frames[0]) && [] + [frames[0]] == frames;
    RemainingPush([], frames[0], [], order);
    hide Walk, WalksAll, Remaining, FrameOk, FramesOk, OnTrack, Left;
    assert OnTrack(paths, frames, components, order, goal) by { Begin(paths, frames, components, order, goal); }
    while true
      invariant OnTrack(paths, frames, components, order, goal) && |components| == |frames| - 1
      decreases Left(frames, components, order), |frames|
    {
      var top := frames[|frames| - 1];
      var below := frames[..|frames| - 1];
      TrackFacts(paths, frames, components, order, goal);
      Innermost(frames);
      ghost var before, was := frames, components;
      if top.names != [] {
        WalkStep(top, components, order);
        var name := top.names[0];
        components := components + [name];
        var q := components;
        if top.node.children[name].Directory? {
          StepDirectory(below, top, was, order);
          frames := below + [Advanced(top)] + [Frame(top.node.children[name], order(top.node.children[name].children))];
        } else {
          StepFile(below, top, was, order);
          components := components[..|components| - 1];
          frames := below + [Advanced(top)];
          assert components == was;
        }
        ListOne(paths, before, was, order, goal, q, frames, components);
        paths := paths + [q];
      } else {
        GoUp(paths, below, top, components, order, goal);
        frames := below;
        if components == [] {
          break;
        }
        components := components[..|components| - 1];
      }
    }
    assert components == [] && frames == [];
  }

  lemma {:induction false} Begin(paths: seq<Path>, frames: seq<Frame>, components: Path, order: Order, goal: seq<Path>)
    requires WalksAll(order) && FramesOk(frames) && |components| == |frames| - 1 && paths == []
      && goal == Remaining(frames, components, order)
    ensures OnTrack(paths, frames, components, order, goal)
  {
    assert [] + goal == goal;
  }

  lemma {:induction false} TrackFacts(paths: seq<Path>, frames: seq<Frame>, components: Path, order: Order,
      goal: seq<Path>)
    requires OnTrack(paths, frames, components, order, goal)
    ensures WalksAll(order) && FramesOk(frames)
  {
  }

  // ----- what is enumerated

  lemma {:induction false} WalkMember(n: Node, names: seq<string>, prefix: Path, order: Order, x: Path)
    requires n.Directory? && (forall k :: k in names ==> k in n.children) && WalksAll(order)
    ensures x in Walk(n, names, prefix, order) <==>
      prefix <= x && |x| > |prefix| && x[|prefix|] in names && View(n, x[|prefix|..]).Some?
    decreases n, |names|
  {
    if names != [] {
      var q := prefix + [names[0]];
      var child := n.children[names[0]];
      var y := x[if prefix <= x then |prefix| else 0..];
      WalkMember(n, names[1..], prefix, order, x);
      assert names == [names[0]] + names[1..];
      if child.Directory? {
        WalkMember(child, order(child.children), q, order, x);
      }
      if prefix <= x && |x| > |prefix| && x[|prefix|] == names[0] {
        assert q <= x;
        assert y[0] == names[0] && y[1..] == x[|q|..];
        assert View(n, y) == View(child, y[1..]);
        if |x| == |q| {
          assert x == q && y[1..] == [];
        } else {
          assert View(child, x[|q|..]).Some? ==> child.Directory? && x[|q|] in child.children;
        }
      } else {
        assert !(q <= x);
      }
    }
  }

  /** Everything below a directory is enumerated, and nothing else. */
  lemma {:induction false} EnumeratesAll(n: Node, order: Order, x: Path)
    requires n.Directory? && WalksAll(order)
    ensures x in Walk(n, order(n.children), [], order) <==> x != [] && View(n, x).Some?
  {
    WalkMember(n, order(n.children), [], order, x);
    if x != [] {
      assert x[0..] == x;
    }
  }

  lemma {:induction false} NoRepeatsConcat<T>(a: seq<T>, b: seq<T>)
    requires NoRepeats(a) && NoRepeats(b) && forall x :: x in a ==> x !in b
    ensures NoRepeats(a + b)
  {
    forall i, j | 0 <= i < j < |a + b|
      ensures (a + b)[i] != (a + b)[j]
    {
      if i < |a| <= j {
        assert (a + b)[i] in a && (a + b)[j] in b;
      }
    }
  }

  /** Nothing is enumerated twice. */
  lemma {:induction false} WalkNoRepeats(n: Node, names: seq<string>, prefix: Path, order: Order)
    requires n.Directory? && (forall k :: k in names ==> k in n.children) && WalksAll(order) && NoRepeats(names)
    ensures NoRepeats(Walk(n, names, prefix, order))
    decreases n, |names|
  {
    if names != [] {
      var q := prefix + [names[0]];
      var child := n.children[names[0]];
      var inside := if child.Directory? then Walk(child, order(child.children), q, order) else [];
      var others := Walk(n, names[1..], prefix, order);
      WalkNoRepeats(n, names[1..], prefix, order);
      if child.Directory? {
        WalkNoRepeats(child, order(child.children), q, order);
      }
      forall x | x in inside
        ensures x != q && q <= x
      {
        WalkMember(child, order(child.children), q, order, x);
      }
      NoRepeatsConcat([q], inside);
      forall x | x in [q] + inside
        ensures x !in others
      {
        assert q <= x && x[|prefix|] == names[0];
        WalkMember(n, names[1..], prefix, order, x);
        assert names[0] !in names[1..];
      }
      NoRepeatsConcat([q] + inside, others);
    }
  }

  /** In `paths`, `a` comes before `b`. */
  ghost predicate Before(paths: seq<Path>, a: Path, b: Path) {
    exists i, j :: 0 <= i < j < |paths| && paths[i] == a && paths[j] == b
  }

  lemma {:induction false} BeforeInside(l: seq<Path>, paths: seq<Path>, r: seq<Path>, a: Path, b: Path)
    requires Before(paths, a, b)
    ensures Before(l + paths + r, a, b)
  {
    var i, j :| 0 <= i < j < |paths| && paths[i] == a && paths[j] == b;
    var s := l + paths + r;
    assert s[|l| + i] == a && s[|l| + j] == b;
  }

  lemma {:induction false} BeforeItsContents(q: Path, inside: seq<Path>, others: seq<Path>, x: Path)
    requires x in inside
    ensures Before([q] + inside + others, q, x)
  {
    var j :| 0 <= j < |inside| && inside[j] == x;
    var all := [q] + inside + others;
    assert all[0] == q && all[1 + j] == x;
  }

  lemma {:induction false} BeforeAfterwards(l: seq<Path>, others: seq<Path>, a: Path, b: Path)
    requires Before(others, a, b)
    ensures Before(l + others, a, b)
  {
    BeforeInside(l, others, [], a, b);
    assert l + others + [] == l + others;
  }

  /** A directory is enumerated before what is in it. */
  lemma {:induction false} WalkParentsFirst(n: Node, names: seq<string>, prefix: Path, order: Order, x: Path)
    requires n.Directory? && (forall k :: k in names ==> k in n.children) && WalksAll(order)
    requires x in Walk(n, names, prefix, order) && |x| > |prefix| + 1
    ensures Before(Walk(n, names, prefix, order), Parent(x), x)
    decreases n, |names|
  {
    var q := prefix + [names[0]];
    var child := n.children[names[0]];
    var inside := if child.Directory? then Walk(child, order(child.children), q, order) else [];
    var others := Walk(n, names[1..], prefix, order);
    assert Walk(n, names, prefix, order) == [q] + inside + others;
    assert x != q;
    hide Walk, Before;
    if x in inside {
      WalkMember(child, order(child.children), q, order, x);
      if |x| == |q| + 1 {
        assert Parent(x) == q;
        BeforeItsContents(q, inside, others, x);
      } else {
        WalkParentsFirst(child, order(child.children), q, order, x);
        BeforeInside([q], inside, others, Parent(x), x);
      }
    } else {
      assert x in others;
      WalkParentsFirst(n, names[1..], prefix, order, x);
      BeforeAfterwards([q] + inside, others, Parent(x), x);
    }
  }

  // ----- file names in path strings

  /** Without trailing slashes. */
  function TrimEnd(s: string): string {
    if s != "" && s[|s| - 1] == '/' then TrimEnd(s[..|s| - 1]) else s
  }

  /** What follows the last slash, if there is one. */
  function AfterLastSlash(s: string): Option<string> {
    if s == "" then None
    else if s[|s| - 1] == '/' then Some("")
    else match AfterLastSlash(s[..|s| - 1])
      case None => None
      case Some(t) => Some(t + [s[|s| - 1]])
  }

  /** `GuestPath::file_name`: a path without a slash has none. */
  function FileName(path: string): Option<string> {
    match AfterLastSlash(TrimEnd(path))
    case None => None
    case Some(name) => if name == "" then None else Some(name)
  }

  lemma {:induction false} SlashedAppends(a: seq<string>, b: seq<string>)
    ensures Slashed(a + b) == Slashed(a) + Slashed(b)
    decreases |a|
  {
    if a == [] {
      assert a + b == b;
    } else {
      assert (a + b)[0] == a[0] && (a + b)[1..] == a[1..] + b;
      SlashedAppends(a[1..], b);
    }
  }

  lemma {:induction false} JoinLast(x: Path)
    requires |x| >= 2
    ensures Join(x) == Join(Parent(x)) + "/" + Name(x)
  {
    var tail := x[1..];
    assert tail == Parent(x)[1..] + [Name(x)];
    SlashedAppends(Parent(x)[1..], [Name(x)]);
    assert Slashed([Name(x)]) == "/" + Name(x) by { assert Slashed([Name(x)][1..]) == ""; }
  }

  lemma {:induction false} AfterLastSlashOf(s: string, name: string)
    requires NoSlash(name)
    ensures AfterLastSlash(s + "/" + name) == Some(name)
    decreases |name|
  {
    var all := s + "/" + name;
    if name == "" {
      assert all[|all| - 1] == '/';
    } else {
      var init := name[..|name| - 1];
      assert all[..|all| - 1] == s + "/" + init && all[|all| - 1] == name[|name| - 1];
      AfterLastSlashOf(s, init);
      assert init + [name[|name| - 1]] == name;
    }
  }

  lemma {:induction false} NoLastSlash(s: string)
    requires NoSlash(s)
    ensures AfterLastSlash(s).None?
  {
    if s != "" {
      NoLastSlash(s[..|s| - 1]);
    }
  }

  /** A relative path has a file name when it has at least two components. */
  lemma {:induction false} FileNameOfJoin(x: Path)
    requires x != [] && AllClean(x) && AllNoSlash(x)
    ensures FileName(Join(x)) == if |x| >= 2 then Some(Name(x)) else None
  {
    assert NoSlash(Name(x)) && IsClean(Name(x));
    if |x| >= 2 {
      JoinLast(x);
      AfterLastSlashOf(Join(Parent(x)), Name(x));
      var s := Join(x);
      assert s[|s| - 1] == Name(x)[|Name(x)| - 1];
    } else {
      assert Join(x) == x[0] by { assert Slashed(x[1..]) == ""; }
      NoLastSlash(x[0]);
    }
  }

  function Slashes(k: nat): string {
    if k == 0 then "" else Slashes(k - 1) + "/"
  }

  lemma {:induction false} TrimsSlashes(s: string, k: nat)
    requires s == "" || s[|s| - 1] != '/'
    ensures TrimEnd(s + Slashes(k)) == s
    decreases k
  {
    if k == 0 {
      assert s + "" == s;
    } else {
      var all := s + Slashes(k);
      assert all == s + Slashes(k - 1) + "/" && all[..|all| - 1] == s + Slashes(k - 1);
      TrimsSlashes(s, k - 1);
    }
  }

  /** Whatever slashes follow: the file name is what is behind the last other slash; without one there is none. */
  lemma {:induction false} FileNameIs(parent: string, name: string, k: nat)
    requires NoSlash(name) && name != ""
    ensures FileName(parent + "/" + name + Slashes(k)) == Some(name)
    ensures FileName(name + Slashes(k)) == None && FileName(Slashes(k)) == None
  {
    TrimsSlashes(parent + "/" + name, k);
    TrimsSlashes(name, k);
    TrimsSlashes("", k);
    assert "" + Slashes(k) == Slashes(k);
    AfterLastSlashOf(parent, name);
    NoLastSlash(name);
  }

  // ----- order of candidates

  function SlashCount(s: string): nat {
    if s == "" then 0 else (if s[0] == '/' then 1 else 0) + SlashCount(s[1..])
  }

  /** Lexicographic order. */
  predicate StringLe(a: string, b: string) {
    a == "" || (b != "" && (a[0] < b[0] || (a[0] == b[0] && StringLe(a[1..], b[1..]))))
  }

  /** Shallower paths first, ties broken by the path. */
  predicate PathLe(a: string, b: string) {
    SlashCount(a) < SlashCount(b) || (SlashCount(a) == SlashCount(b) && StringLe(a, b))
  }

  lemma {:induction false} StringLeTotal(a: string, b: string)
    ensures StringLe(a, b) || StringLe(b, a)
    ensures StringLe(a, b) && StringLe(b, a) ==> a == b
  {
    if a != "" && b != "" && a[0] == b[0] {
      StringLeTotal(a[1..], b[1..]);
      assert a == [a[0]] + a[1..] && b == [b[0]] + b[1..];
    }
  }

  lemma {:induction false} StringLeTransitive(a: string, b: string, c: string)
    requires StringLe(a, b) && StringLe(b, c)
    ensures StringLe(a, c)
  {
    if a != "" && a[0] == b[0] == c[0] {
      StringLeTransitive(a[1..], b[1..], c[1..]);
    }
  }

  lemma {:induction false} PathLeTransitive(a: string, b: string, c: string)
    requires PathLe(a, b) && PathLe(b, c)
    ensures PathLe(a, c)
  {
    if SlashCount(a) == SlashCount(c) {
      StringLeTransitive(a, b, c);
    }
  }

  /** `a` is `b` up to where it ends or has the lesser character. */
  ghost predicate Lexicographic(a: string, b: string) {
    a <= b || exists k: nat :: LessAt(a, b, k)
  }

  predicate LessAt(a: string, b: string, k: nat) {
    k < |a| && k < |b| && a[..k] == b[..k] && a[k] < b[k]
  }

  lemma {:induction false} StringLeMeans(a: string, b: string)
    ensures StringLe(a, b) <==> Lexicographic(a, b)
    decreases |a|
  {
    if a != "" && b != "" {
      if a[0] < b[0] {
        assert LessAt(a, b, 0);
      } else if a[0] == b[0] {
        StringLeMeans(a[1..], b[1..]);
        assert a == [a[0]] + a[1..] && b == [b[0]] + b[1..];
        LessLater(a, b);
      }
    }
  }

  lemma {:induction false} LessLater(a: string, b: string)
    requires a != "" && b != "" && a[0] == b[0]
    ensures (exists k: nat :: LessAt(a, b, k)) <==> exists k: nat :: LessAt(a[1..], b[1..], k)
  {
    forall k: nat | k + 1 <= |a| && k + 1 <= |b|
      ensures a[..k + 1] == b[..k + 1] <==> a[1..][..k] == b[1..][..k]
    {
      assert a[..k + 1] == [a[0]] + a[1..][..k] && b[..k + 1] == [b[0]] + b[1..][..k];
    }
    if k: nat :| LessAt(a, b, k) {
      assert k > 0 && LessAt(a[1..], b[1..], k - 1);
    }
    if k: nat :| LessAt(a[1..], b[1..], k) {
      assert LessAt(a, b, k + 1);
    }
  }

  lemma {:induction false} SlashesAppend(a: string, b: string)
    ensures SlashCount(a + b) == SlashCount(a) + SlashCount(b)
    decreases |a|
  {
    if a == "" {
      assert a + b == b;
    } else {
      assert (a + b)[0] == a[0] && (a + b)[1..] == a[1..] + b;
      SlashesAppend(a[1..], b);
    }
  }

  lemma {:induction false} SlashlessCount(c: string)
    requires '/' !in c
    ensures SlashCount(c) == 0
    decreases |c|
  {
    if c != "" {
      SlashlessCount(c[1..]);
    }
  }

  lemma {:induction false} SlashedCount(cs: Path)
    requires AllNoSlash(cs)
    ensures SlashCount(Slashed(cs)) == |cs|
    decreases |cs|
  {
    if cs != [] {
      SlashedCount(cs[1..]);
      SlashesAppend("/" + cs[0], Slashed(cs[1..]));
      SlashesAppend("/", cs[0]);
      SlashlessCount(cs[0]);
    }
  }

  /** Of two paths the one with fewer components comes first; else the strings decide. */
  ghost predicate ComesFirst(x: Path, y: Path) {
    |x| < |y| || (|x| == |y| && Lexicographic(Join(x), Join(y)))
  }

  lemma {:induction false} PathLeMeans(x: Path, y: Path)
    requires x != [] && y != [] && AllNoSlash(x) && AllNoSlash(y)
    ensures PathLe(Join(x), Join(y)) <==> ComesFirst(x, y)
  {
    JoinCount(x);
    JoinCount(y);
    StringLeMeans(Join(x), Join(y));
  }

  lemma {:induction false} JoinCount(x: Path)
    requires x != [] && AllNoSlash(x)
    ensures SlashCount(Join(x)) == |x| - 1
  {
    SlashedCount(x[1..]);
    SlashesAppend(x[0], Slashed(x[1..]));
    SlashlessCount(x[0]);
  }

  predicate SortedPaths(s: seq<string>) {
    forall i, j :: 0 <= i < j < |s| ==> PathLe(s[i], s[j])
  }

  function Placed(s: seq<string>, x: string): seq<string> {
    if s == [] || PathLe(x, s[0]) then [x] + s else [s[0]] + Placed(s[1..], x)
  }

  /** `sort_by` */
  function Sorted(s: seq<string>): seq<string> {
    if s == [] then [] else Placed(Sorted(s[1..]), s[0])
  }

  lemma {:induction false} PlacedHasSame(s: seq<string>, x: string, y: string)
    ensures y in Placed(s, x) <==> y == x || y in s
  {
    if s != [] {
      assert s == [s[0]] + s[1..];
      if !PathLe(x, s[0]) {
        hide PathLe;
        PlacedHasSame(s[1..], x, y);
      }
    }
  }

  /** A first element before all of a sorted sequence. */
  lemma {:induction false} SortedCons(x: string, s: seq<string>)
    requires SortedPaths(s) && forall y :: y in s ==> PathLe(x, y)
    ensures SortedPaths([x] + s)
  {
    hide PathLe;
  }

  lemma {:induction false} PlacedSorts(s: seq<string>, x: string)
    requires SortedPaths(s)
    ensures SortedPaths(Placed(s, x))
  {
    if s != [] {
      var rest := s[1..];
      StringLeTotal(x, s[0]);
      assert forall y :: y in s ==> PathLe(s[0], y) by { FirstIsLeast(s); }
      if PathLe(x, s[0]) {
        forall y | y in s
          ensures PathLe(x, y)
        {
          PathLeTransitive(x, s[0], y);
        }
        hide PathLe;
        SortedCons(x, s);
      } else {
        assert PathLe(s[0], x);
        hide PathLe;
        PlacedSorts(rest, x);
        forall y | y in Placed(rest, x)
          ensures PathLe(s[0], y)
        {
          PlacedHasSame(rest, x, y);
        }
        SortedCons(s[0], Placed(rest, x));
      }
    }
  }

  lemma {:induction false} FirstIsLeast(s: seq<string>)
    requires SortedPaths(s) && s != []
    ensures forall y :: y in s ==> PathLe(s[0], y)
  {
    StringLeTotal(s[0], s[0]);
    hide StringLe;
  }

  lemma {:induction false} SortedSorts(s: seq<string>)
    ensures SortedPaths(Sorted(s))
  {
    if s != [] {
      SortedSorts(s[1..]);
      PlacedSorts(Sorted(s[1..]), s[0]);
    }
  }

  lemma {:induction false} SortedHasSame(s: seq<string>, x: string)
    ensures x in Sorted(s) <==> x in s
  {
    if s != [] {
      SortedHasSame(s[1..], x);
      PlacedHasSame(Sorted(s[1..]), s[0], x);
      assert s == [s[0]] + s[1..];
    }
  }

  // ----- the index

  type Index = map<string, seq<string>>

  function At(index: Index, key: string): seq<string> {
    if key in index then index[key] else []
  }

  /** The index entry with the path written `rel`, under `key`, stands for the node at `x`. */
  predicate Names(n: Node, x: Path, key: string, rel: string) {
    |x| >= 2 && View(n, x).Some? && key == LowerCase(Name(x)) && rel == Join(x)
  }

  /** The index holds, for each name, the paths of the nodes at least one directory down, in order. */
  ghost predicate IndexOk(index: Index, n: Node) {
    && (forall key {:trigger At(index, key)} :: SortedPaths(At(index, key)))
    && (forall key, rel {:trigger rel in At(index, key)} :: rel in At(index, key) <==>
      exists x :: Names(n, x, key, rel))
  }

  ghost predicate NamesOk(n: Node) {
    forall q {:trigger View(n, q)} :: View(n, q).Some? ==> AllClean(q) && AllNoSlash(q)
  }

  /** The paths read so far are under their names. */
  ghost predicate Grouped(index: Index, paths: seq<Path>) {
    forall key, rel {:trigger rel in At(index, key)} :: rel in At(index, key) <==>
      exists x :: x in paths && ForName(x, key, rel)
  }

  predicate ForName(x: Path, key: string, rel: string) {
    |x| >= 2 && key == LowerCase(Name(x)) && rel == Join(x)
  }

  lemma {:induction false} GroupedStep(index: Index, index2: Index, paths: seq<Path>, x: Path)
    requires Grouped(index, paths)
    requires |x| >= 2 ==> var key := LowerCase(Name(x)); index2 == index[key := At(index, key) + [Join(x)]]
    requires |x| < 2 ==> index2 == index
    ensures Grouped(index2, paths + [x])
  {
    forall key, rel
      ensures rel in At(index2, key) <==> exists y :: y in paths + [x] && ForName(y, key, rel)
    {
      assert rel in At(index2, key) <==> rel in At(index, key) || ForName(x, key, rel);
      hide ForName, At;
      assert forall y :: y in paths + [x] <==> y in paths || y == x;
      assert rel in At(index, key) <==> exists y :: y in paths && ForName(y, key, rel);
    }
  }

  lemma {:induction false} SortingKeepsIndex(grouped: Index, n: Node, paths: seq<Path>)
    requires Grouped(grouped, paths) && AllNodes(n, paths)
    ensures IndexOk(map key | key in grouped :: Sorted(grouped[key]), n)
  {
    var index: Index := map key | key in grouped :: Sorted(grouped[key]);
    forall key
      ensures SortedPaths(At(index, key))
    {
      SortedSorts(At(grouped, key));
    }
    forall key, rel
      ensures rel in At(index, key) <==> exists x :: Names(n, x, key, rel)
    {
      SortedHasSame(At(grouped, key), rel);
      assert rel in At(index, key) <==> rel in At(grouped, key);
      if rel in At(grouped, key) {
        var x :| x in paths && ForName(x, key, rel);
        assert Names(n, x, key, rel);
      }
      if exists x :: Names(n, x, key, rel) {
        var x :| Names(n, x, key, rel);
        assert x in paths && ForName(x, key, rel);
      }
    }
  }

  /** One path entered into the index under its file name, if it has one. */
  function Entered(index: Index, relative: string): Index {
    match FileName(relative)
    case None => index
    case Some(name) => index[LowerCase(name) := At(index, LowerCase(name)) + [relative]]
  }

  lemma {:induction false} EnteringGroups(index: Index, paths: seq<Path>, n: Node, x: Path)
    requires Grouped(index, paths) && NamesOk(n) && View(n, x).Some? && x != []
    ensures Grouped(Entered(index, Join(x)), paths + [x])
  {
    FileNameOfJoin(x);
    hide FileName, LowerCase, Grouped, View, Join;
    GroupedStep(index, Entered(index, Join(x)), paths, x);
  }

  lemma {:induction false} NothingGrouped()
    ensures Grouped(map[], [])
  {
  }

  ghost predicate AllNodes(n: Node, paths: seq<Path>) {
    forall x {:trigger x in paths} :: x in paths <==> x != [] && View(n, x).Some?
  }

  lemma {:induction false} EnumeratedAreNodes(n: Node, order: Order)
    requires n.Directory? && WalksAll(order)
    ensures AllNodes(n, Walk(n, order(n.children), [], order))
  {
    hide Walk, View;
    forall x
      ensures x in Walk(n, order(n.children), [], order) <==> x != [] && View(n, x).Some?
    {
      EnumeratesAll(n, order, x);
    }
  }

  /** The index of everything below a directory, built as `candidates_for_name` does. */
  method BuildIndex(n: Node, order: Order) returns (index: Index)
    requires n.Directory? && WalksAll(order) && NamesOk(n)
    ensures IndexOk(index, n)
  {
    hide Walk, WalksAll, View, FileName, LowerCase, IndexOk, Grouped, NamesOk, Join, AllNodes, Sorted;
    var paths := EnumerateRecursive(n, order);
    EnumeratedAreNodes(n, order);
    var grouped: Index := map[];
    NothingGrouped();
    for i := 0 to |paths|
      invariant Grouped(grouped, paths[..i])
    {
      var x := paths[i];
      NodeAt(n, paths, i);
      EnteringGroups(grouped, paths[..i], n, x);
      var relative := Join(x);
      var name := FileName(relative);
      if name.Some? {
        var key := LowerCase(name.value);
        grouped := grouped[key := At(grouped, key) + [relative]];
      }
      assert paths[..i + 1] == paths[..i] + [x];
    }
    assert paths[..|paths|] == paths;
    SortingKeepsIndex(grouped, n, paths);
    index := map key | key in grouped :: Sorted(grouped[key]);
  }

  lemma {:induction false} NodeAt(n: Node, paths: seq<Path>, i: nat)
    requires AllNodes(n, paths) && i < |paths|
    ensures paths[i] != [] && View(n, paths[i]).Some?
  {
    assert paths[i] in paths;
  }
}
