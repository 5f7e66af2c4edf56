/** Looking nodes up by path (src/fs.rs): by exact names first, and else by names of another case. */
module NodeLookup {
  import opened Common
  import opened FileTree

  function Lower(c: char): char {
    if 'A' <= c <= 'Z' then (c as int + 32) as char else c
  }

  /** `to_ascii_lowercase`; names match if theirs agree. */
  function LowerCase(s: string): string {
    if s == "" then "" else [Lower(s[0])] + LowerCase(s[1..])
  }

  /** Of ASCII letters one is the capital of the other. */
  predicate IsCapitalOf(c: char, d: char) {
    'A' <= c <= 'Z' && d as int == c as int + 32
  }

  predicate SameLetter(c: char, d: char) {
    c == d || IsCapitalOf(c, d) || IsCapitalOf(d, c)
  }

  predicate SameButCase(a: string, b: string) {
    |a| == |b| && forall i :: 0 <= i < |a| ==> SameLetter(a[i], b[i])
  }

  /** Names agree in lower case exactly if they differ in the case of ASCII letters only. */
  lemma {:induction false} LowerCaseMeans(a: string, b: string)
    ensures LowerCase(a) == LowerCase(b) <==> SameButCase(a, b)
    decreases |a|
  {
    LowerCaseLength(a);
    LowerCaseLength(b);
    if a != "" && b != "" {
      LowerCaseMeans(a[1..], b[1..]);
      assert LowerCase(a)[0] == Lower(a[0]) && LowerCase(b)[0] == Lower(b[0]);
      assert LowerCase(a)[1..] == LowerCase(a[1..]) && LowerCase(b)[1..] == LowerCase(b[1..]);
      assert LowerCase(a) == LowerCase(b) ==> Lower(a[0]) == Lower(b[0]) && LowerCase(a[1..]) == LowerCase(b[1..]);
    }
  }

  lemma {:induction false} LowerCaseLength(a: string)
    ensures |LowerCase(a)| == |a|
    decreases |a|
  {
    if a != "" {
      LowerCaseLength(a[1..]);
    }
  }

  predicate SameNames(a: Path, b: Path) {
    |a| == |b| && forall i :: 0 <= i < |a| ==> LowerCase(a[i]) == LowerCase(b[i])
  }

  lemma {:induction false} SameNamesMeans(a: Path, b: Path)
    ensures SameNames(a, b) <==> |a| == |b| && forall i :: 0 <= i < |a| ==> SameButCase(a[i], b[i])
  {
    hide LowerCase, SameButCase;
    forall i | 0 <= i < |a| == |b|
      ensures LowerCase(a[i]) == LowerCase(b[i]) <==> SameButCase(a[i], b[i])
    {
      LowerCaseMeans(a[i], b[i]);
    }
  }

  /** On the way `a` a name was only replaced by one of another case where it was not there itself. */
  predicate ExactFirst(root: Node, cs: Path, a: Path) {
    |a| <= |cs| && forall i {:trigger a[i]} :: 0 <= i < |a| && Lookup(root, a[..i] + [cs[i]]).Some? ==> a[i] == cs[i]
  }

  /** The lookup of `cs` has got to the node at `a`. */
  predicate Found(root: Node, cs: Path, a: Path) {
    SameNames(a, cs) && Lookup(root, a).Some? && ExactFirst(root, cs, a)
  }

  /** The lookup of `cs` has got to `a` and finds no name there to go on with. */
  ghost predicate DeadEnd(root: Node, cs: Path, a: Path) {
    && |a| < |cs| && SameNames(a, cs[..|a|]) && Lookup(root, a).Some? && ExactFirst(root, cs, a)
    && forall name {:trigger Lookup(root, a + [name])} :: LowerCase(name) == LowerCase(cs[|a|]) ==>
      Lookup(root, a + [name]).None?
  }

  /** Two nodes next to each other whose names differ in case only. */
  ghost predicate HasTwins(root: Node) {
    exists p: Path, x, y {:trigger p + [x], p + [y]} ::
      x != y && LowerCase(x) == LowerCase(y) && Lookup(root, p + [x]).Some? && Lookup(root, p + [y]).Some?
  }

  lemma {:induction false} PrefixThere(root: Node, a: Path, i: nat)
    requires i < |a| && Lookup(root, a).Some?
    ensures Lookup(root, a[..i]).Some? && Lookup(root, a[..i] + [a[i]]).Some? && a[..i] + [a[i]] == a[..i + 1]
  {
    LookupAppends(root, a[..i], a[i..]);
    assert a[..i] + a[i..] == a;
    LookupAppends(root, a[..i + 1], a[i + 1..]);
    assert a[..i + 1] + a[i + 1..] == a;
    assert a[..i] + [a[i]] == a[..i + 1];
  }

  lemma {:induction false} SameOrTwins(root: Node, p: Path, x: string, y: string)
    requires LowerCase(x) == LowerCase(y) && Lookup(root, p + [x]).Some? && Lookup(root, p + [y]).Some?
    ensures x == y || HasTwins(root)
  {
  }

  lemma {:induction false} NextOnWay(root: Node, a: Path, b: Path)
    requires |a| < |b| && a == b[..|a|] && Lookup(root, b).Some?
    ensures Lookup(root, a + [b[|a|]]).Some?
  {
    PrefixThere(root, b, |a|);
  }

  /** Without twins the lookup cannot leave the way of a node with these names; nor can it if the names are exact. */
  lemma {:induction false} StaysOnWay(root: Node, cs: Path, a: Path, b: Path, i: nat)
    requires i <= |a| && Lookup(root, a).Some? && ExactFirst(root, cs, a) && SameNames(a, cs[..|a|])
    requires Lookup(root, b).Some? && SameNames(b, cs) && (b == cs || !HasTwins(root))
    ensures i <= |b| && a[..i] == b[..i]
  {
    hide LowerCase, Lookup, HasTwins;
    if i > 0 {
      StaysOnWay(root, cs, a, b, i - 1);
      PrefixThere(root, a, i - 1);
      PrefixThere(root, b, i - 1);
      SameOrTwins(root, a[..i - 1], a[i - 1], b[i - 1]);
      assert a[..i] == a[..i - 1] + [a[i - 1]] && b[..i] == b[..i - 1] + [b[i - 1]];
    }
  }

  /**
   A path with exactly these names is found first. Another one is found exactly if it agrees with them
   ignoring case, as long as no siblings differ in case only.
   */
  lemma {:induction false} FoundIsIt(root: Node, cs: Path, a: Path, b: Path)
    requires Lookup(root, b).Some? && SameNames(b, cs) && (b == cs || !HasTwins(root))
    ensures !DeadEnd(root, cs, a)
    ensures Found(root, cs, a) <==> a == b
  {
    hide LowerCase, Lookup, HasTwins;
    if Found(root, cs, a) {
      assert cs[..|a|] == cs;
      StaysOnWay(root, cs, a, b, |a|);
      assert a[..|a|] == a && b[..|b|] == b;
    }
    if DeadEnd(root, cs, a) {
      StaysOnWay(root, cs, a, b, |a|);
      assert a[..|a|] == a;
      NextOnWay(root, a, b);
    }
    if a == b {
      IsExactFirst(root, cs, b);
    }
  }

  lemma {:induction false} FoundExactly(root: Node, cs: Path, a: Path)
    requires Lookup(root, cs).Some?
    ensures !DeadEnd(root, cs, a) && (Found(root, cs, a) ==> a == cs)
  {
    hide Found, DeadEnd;
    FoundIsIt(root, cs, a, cs);
  }

  /** A path that is there is found, and nothing else for it. */
  lemma {:induction false} FindsItself(root: Node, cs: Path)
    ensures Found(root, cs, cs) <==> Lookup(root, cs).Some?
  {
    if Lookup(root, cs).Some? {
      hide Found, DeadEnd;
      FoundIsIt(root, cs, cs, cs);
    }
  }

  lemma {:induction false} FoundNames(root: Node, cs: Path, a: Path)
    requires Found(root, cs, a)
    ensures SameNames(a, cs) && Lookup(root, a).Some? && !DeadEnd(root, cs, a)
  {
  }

  lemma {:induction false} NotFoundAt(root: Node, cs: Path, a: Path)
    requires DeadEnd(root, cs, a)
    ensures !Found(root, cs, a)
  {
  }

  lemma {:induction false} IsExactFirst(root: Node, cs: Path, b: Path)
    requires Lookup(root, b).Some? && SameNames(b, cs) && (b == cs || !HasTwins(root))
    ensures ExactFirst(root, cs, b)
  {
    hide LowerCase, Lookup, HasTwins;
    forall i | 0 <= i < |b| && Lookup(root, b[..i] + [cs[i]]).Some?
      ensures b[i] == cs[i]
    {
      PrefixThere(root, b, i);
      SameOrTwins(root, b[..i], b[i], cs[i]);
    }
  }

  /** The lookup goes on to a child. */
  lemma {:induction false} LookupGoesOn(root: Node, cs: Path, a: Path, node: Node, name: string)
    requires |a| < |cs| && SameNames(a, cs[..|a|]) && Lookup(root, a) == Some(node) && ExactFirst(root, cs, a)
    requires node.Directory? && name in node.children && LowerCase(name) == LowerCase(cs[|a|])
    requires cs[|a|] in node.children ==> name == cs[|a|]
    ensures SameNames(a + [name], cs[..|a| + 1]) && ExactFirst(root, cs, a + [name])
    ensures Lookup(root, a + [name]) == Some(node.children[name])
  {
    hide LowerCase;
    var b := a + [name];
    LookupAppends(root, a, [name]);
    LookupAppends(root, a, [cs[|a|]]);
    assert [name][1..] == [] && [cs[|a|]][1..] == [];
    forall i | 0 <= i < |b| && Lookup(root, b[..i] + [cs[i]]).Some?
      ensures b[i] == cs[i]
    {
      assert b[..i] == a[..i];
      assert i < |a| ==> b[i] == a[i];
      assert i == |a| ==> a[..i] == a;
    }
  }

  lemma {:induction false} LookupStops(root: Node, cs: Path, a: Path, node: Node)
    requires |a| < |cs| && SameNames(a, cs[..|a|]) && Lookup(root, a) == Some(node) && ExactFirst(root, cs, a)
    requires node.Directory? ==> forall k :: k in node.children ==> LowerCase(k) != LowerCase(cs[|a|])
    ensures DeadEnd(root, cs, a)
  {
    hide LowerCase;
    forall name | LowerCase(name) == LowerCase(cs[|a|])
      ensures Lookup(root, a + [name]).None?
    {
      LookupAppends(root, a, [name]);
    }
  }
}
