/** Guest paths (src/fs.rs): strings split at slashes, and their resolution to absolute components. */
module GuestPaths {
  import opened Common

  type Components = seq<string>

  // ----- splitting and joining

  /** `str::split('/')`: never empty, `""` gives `[""]`. */
  function Split(s: string): (r: seq<string>)
    ensures |r| >= 1
  {
    if s == "" then [""]
    else if s[0] == '/' then [""] + Split(s[1..])
    else
      var rest := Split(s[1..]);
      [[s[0]] + rest[0]] + rest[1..]
  }

  /** The components with a slash in front of each. */
  function Slashed(cs: seq<string>): string {
    if cs == [] then "" else "/" + cs[0] + Slashed(cs[1..])
  }

  /** `cs.join("/")` */
  function Join(cs: seq<string>): string {
    if cs == [] then "" else cs[0] + Slashed(cs[1..])
  }

  predicate IsAbsolute(path: string) {
    path != "" && path[0] == '/'
  }

  // ----- resolution

  predicate IsClean(c: string) {
    c !in ["", ".", ".."]
  }

  predicate AllClean(cs: seq<string>) {
    forall i :: 0 <= i < |cs| ==> IsClean(cs[i])
  }

  /** `apply_path_component` */
  function ApplyComponent(cs: Components, c: string): Components {
    if c == "" || c == "." then cs
    else if c == ".." then (if cs == [] then [] else cs[..|cs| - 1])
    else cs + [c]
  }

  function ApplyAll(cs: Components, parts: seq<string>): Components
    decreases |parts|
  {
    if parts == [] then cs else ApplyAll(ApplyComponent(cs, parts[0]), parts[1..])
  }

  predicate MarkerAt(cs: Components, i: nat) {
    i + 3 <= |cs| && cs[i] == "var" && cs[i + 1] == "mobile" && cs[i + 2] == "Applications"
  }

  /** The first place from `i` on where the marker stands. */
  function FindMarker(cs: Components, i: nat): (r: Option<nat>)
    ensures r.Some? ==> i <= r.value && MarkerAt(cs, r.value) && forall j :: i <= j < r.value ==> !MarkerAt(cs, j)
    ensures r.None? ==> forall j :: i <= j ==> !MarkerAt(cs, j)
    decreases |cs| - i
  {
    if i + 3 > |cs| then None else if MarkerAt(cs, i) then Some(i) else FindMarker(cs, i + 1)
  }

  /** The sandbox path pasted behind another one: the place where the second one starts. */
  function DuplicateStart(cs: Components): (r: Option<nat>)
    ensures r.Some? ==> 0 < r.value && MarkerAt(cs, r.value)
  {
    if |cs| <= 6 then None
    else match FindMarker(cs, 0)
      case None => None
      case Some(first) => FindMarker(cs, first + 1)
  }

  function Deduplicated(cs: Components): Components {
    match DuplicateStart(cs)
    case None => cs
    case Some(start) => cs[start..]
  }

  /** What `resolve_path` demands: something absolute to start from. */
  predicate Resolvable(path: string, relativeTo: Option<string>) {
    IsAbsolute(path) || (relativeTo.Some? && IsAbsolute(relativeTo.value))
  }

  /** `resolve_path` */
  function Resolve(path: string, relativeTo: Option<string>): Components
    requires Resolvable(path, relativeTo)
  {
    var start := if IsAbsolute(path) then [] else ApplyAll([], Split(relativeTo.value));
    Deduplicated(ApplyAll(start, Split(path)))
  }

  method ApplyPathComponents(path: string, start: Components) returns (cs: Components)
    ensures cs == ApplyAll(start, Split(path))
  {
    cs := start;
    var parts := Split(path);
    for i := 0 to |parts|
      invariant ApplyAll(start, parts) == ApplyAll(cs, parts[i..])
    {
      assert parts[i..][1..] == parts[i + 1..];
      if parts[i] == "" || parts[i] == "." {
      } else if parts[i] == ".." {
        cs := if cs == [] then [] else cs[..|cs| - 1];
      } else {
        cs := cs + [parts[i]];
      }
    }
  }

  method MarkerPosition(cs: Components, from: nat) returns (r: Option<nat>)
    ensures r == FindMarker(cs, from)
  {
    var i := from;
    while i + 3 <= |cs|
      invariant FindMarker(cs, from) == FindMarker(cs, i)
    {
      if MarkerAt(cs, i) {
        return Some(i);
      }
      i := i + 1;
    }
    r := None;
  }

  method ResolvePath(path: string, relativeTo: Option<string>) returns (cs: Components)
    requires Resolvable(path, relativeTo)
    ensures cs == Resolve(path, relativeTo)
  {
    cs := [];
    if !IsAbsolute(path) {
      cs := ApplyPathComponents(relativeTo.value, cs);
    }
    cs := ApplyPathComponents(path, cs);
    if |cs| > 6 {
      var first := MarkerPosition(cs, 0);
      if first.Some? {
        var second := MarkerPosition(cs, first.value + 1);
        if second.Some? {
          cs := cs[second.value..];
        }
      }
    }
  }

  // ----- what resolution gives

  lemma {:induction false} ApplyAllClean(cs: Components, parts: seq<string>)
    requires AllClean(cs)
    ensures AllClean(ApplyAll(cs, parts))
    decreases |parts|
  {
    if parts != [] {
      ApplyAllClean(ApplyComponent(cs, parts[0]), parts[1..]);
    }
  }

  /** The result is free of empty components, `.` and `..`. */
  lemma {:induction false} ResolvedIsClean(path: string, relativeTo: Option<string>)
    requires Resolvable(path, relativeTo)
    ensures AllClean(Resolve(path, relativeTo))
  {
    hide Split, FindMarker;
    if !IsAbsolute(path) {
      ApplyAllClean([], Split(relativeTo.value));
      ApplyAllClean(ApplyAll([], Split(relativeTo.value)), Split(path));
    } else {
      ApplyAllClean([], Split(path));
    }
  }

  lemma {:induction false} ApplyAllAppends(cs: Components, a: seq<string>, b: seq<string>)
    ensures ApplyAll(cs, a + b) == ApplyAll(ApplyAll(cs, a), b)
    decreases |a|
  {
    if a == [] {
      assert a + b == b;
    } else {
      assert (a + b)[1..] == a[1..] + b && (a + b)[0] == a[0];
      ApplyAllAppends(ApplyComponent(cs, a[0]), a[1..], b);
    }
  }

  lemma {:induction false} SplitAppends(a: string, b: string)
    ensures Split(a + "/" + b) == Split(a) + Split(b)
    decreases |a|
  {
    var s := a + "/" + b;
    if a == "" {
      assert s[1..] == b;
    } else {
      assert s[0] == a[0] && s[1..] == a[1..] + "/" + b;
      SplitAppends(a[1..], b);
      assert Split(s[1..]) == Split(a[1..]) + Split(b);
    }
  }

  /** Where the steps of an absolute path lead, before a repeated sandbox path is stripped. */
  function Steps(path: string): Components {
    ApplyAll([], Split(path))
  }

  /**
   What one more step does, whatever was before: to the parent directory, or nowhere from the root; nowhere for an
   empty step or a dot; else to the name. With `Steps("/")` this says where every path leads.
   */
  lemma {:induction false} OneMoreStep(path: string, c: string)
    requires '/' !in c
    ensures Steps(path + "/" + c) ==
      if c == ".." then (if Steps(path) == [] then [] else Steps(path)[..|Steps(path)| - 1])
      else if c == "." || c == "" then Steps(path)
      else Steps(path) + [c]
    ensures Steps("/") == []
  {
    SplitAppends(path, c);
    SplitName(c);
    ApplyAllAppends([], Split(path), [c]);
    assert "/"[1..] == "" && Split("/") == ["", ""];
    assert [c][1..] == [] && ["", ""][1..] == [""] && [""][1..] == [];
  }

  lemma {:induction false} SplitName(c: string)
    requires '/' !in c
    ensures Split(c) == [c]
  {
    if c != "" {
      SplitName(c[1..]);
      assert [c[0]] + c[1..] == c;
    }
  }

  /** A path is resolved from the root, or from the directory if it is relative, and then stripped. */
  lemma {:induction false} ResolvedSteps(path: string, dir: string)
    requires IsAbsolute(dir)
    ensures Resolve(path, Some(dir)) == Deduplicated(Steps(if IsAbsolute(path) then path else dir + "/" + path))
  {
    hide Split, Deduplicated;
    if !IsAbsolute(path) {
      SplitAppends(dir, path);
      ApplyAllAppends([], Split(dir), Split(path));
    }
  }

  /**
   Stripping goes to the second place where the components of the applications directory stand one after another, if
   there are more than six components and two such places; else it changes nothing.
   */
  lemma {:induction false} StripsToSecondMarker(cs: Components, first: nat, second: nat)
    requires first < second
    requires forall i: nat :: i < second ==> (HasMarker(cs, i) <==> i == first)
    ensures HasMarker(cs, second) && |cs| > 6 ==> Deduplicated(cs) == cs[second..]
    ensures |cs| <= 6 || (forall i: nat :: HasMarker(cs, i) ==> i == first) ==> Deduplicated(cs) == cs
  {
    MarkerIs(cs);
    assert HasMarker(cs, first);
    assert FindMarker(cs, 0) == Some(first);
    if HasMarker(cs, second) {
      assert MarkerAt(cs, second);
      assert FindMarker(cs, first + 1) == Some(second);
    }
  }

  lemma {:induction false} MarkerIs(cs: Components)
    ensures forall i: nat :: MarkerAt(cs, i) <==> HasMarker(cs, i)
  {
  }

  lemma {:induction false} StripsNothing(cs: Components)
    requires forall i: nat :: !HasMarker(cs, i)
    ensures Deduplicated(cs) == cs
  {
    assert forall i: nat :: HasMarker(cs, i) <==> MarkerAt(cs, i);
  }

  predicate HasMarker(cs: Components, i: nat) {
    |cs| >= i + 3 && cs[i..i + 3] == ["var", "mobile", "Applications"]
  }

  /** Resolving a relative path against a directory is resolving the two joined. */
  lemma {:induction false} ResolveRelative(dir: string, path: string)
    requires IsAbsolute(dir) && !IsAbsolute(path)
    ensures Resolve(path, Some(dir)) == Resolve(dir + "/" + path, None)
  {
    hide Split, Deduplicated;
    SplitAppends(dir, path);
    ApplyAllAppends([], Split(dir), Split(path));
  }

  /** No component holds a slash, as is so for whatever `Split` gives. */
  predicate NoSlash(c: string) {
    '/' !in c
  }

  predicate AllNoSlash(cs: seq<string>) {
    forall i :: 0 <= i < |cs| ==> NoSlash(cs[i])
  }

  lemma {:induction false} SplitHasNoSlash(s: string)
    ensures AllNoSlash(Split(s))
  {
    if s != "" {
      SplitHasNoSlash(s[1..]);
    }
  }

  lemma {:induction false} SplitPlain(c: string)
    requires NoSlash(c)
    ensures Split(c) == [c]
  {
    if c != "" {
      SplitPlain(c[1..]);
      assert [c[0]] + c[1..] == c;
    }
  }

  lemma {:induction false} SplitSlashed(cs: seq<string>)
    requires AllNoSlash(cs)
    ensures Split(Slashed(cs)) == [""] + cs
    decreases |cs|
  {
    if cs != [] {
      var rest := Slashed(cs[1..]);
      SplitSlashed(cs[1..]);
      SplitPlain(cs[0]);
      assert AllNoSlash(cs[1..]);
      SplitComponent(cs[0], rest);
      assert Slashed(cs) == "/" + (cs[0] + rest);
      assert Slashed(cs)[0] == '/' && Slashed(cs)[1..] == cs[0] + rest;
      assert Split(rest)[0] == "" && Split(rest)[1..] == cs[1..] && cs[0] + "" == cs[0];
      assert [cs[0]] + cs[1..] == cs;
    }
  }

  /** A component in front of slashed ones goes into the empty first part. */
  lemma {:induction false} SplitComponent(c: string, s: string)
    requires NoSlash(c)
    ensures var r := Split(s); Split(c + s) == [c + r[0]] + r[1..]
    decreases |c|
  {
    var r := Split(s);
    if c == "" {
      assert c + s == s && c + r[0] == r[0] && [r[0]] + r[1..] == r;
    } else {
      assert (c + s)[0] == c[0] && (c + s)[1..] == c[1..] + s;
      SplitComponent(c[1..], s);
      assert [c[0]] + (c[1..] + r[0]) == c + r[0];
    }
  }

  lemma {:induction false} ApplyCleanParts(cs: Components, parts: seq<string>)
    requires AllClean(parts)
    ensures ApplyAll(cs, parts) == cs + parts
    decreases |parts|
  {
    if parts != [] {
      assert IsClean(parts[0]);
      ApplyCleanParts(cs + [parts[0]], parts[1..]);
      assert cs + [parts[0]] + parts[1..] == cs + parts;
    }
  }

  /** The string `change_working_directory` stores. */
  function AbsoluteString(cs: Components): (s: string)
    ensures IsAbsolute(s)
  {
    if cs == [] then "/" else Slashed(cs)
  }

  /**
   Clean components written as an absolute path are read back as they are exactly when they do not
   look like a sandbox path pasted behind another one.
   */
  lemma {:induction false} AbsoluteStringResolvesBack(cs: Components)
    requires AllClean(cs) && AllNoSlash(cs)
    ensures Resolve(AbsoluteString(cs), None) == Deduplicated(cs)
    ensures Resolve(AbsoluteString(cs), None) == cs <==> DuplicateStart(cs).None?
  {
    hide FindMarker;
    if cs == [] {
      assert Split("/") == [""] + Split("");
      assert ApplyAll([], ["", ""]) == ApplyAll([], [""]) == ApplyAll([], []);
    } else {
      SplitSlashed(cs);
      ApplyAllAppends([], [""], cs);
      ApplyCleanParts([], cs);
      assert [] + cs == cs && ApplyAll([], [""]) == [];
    }
    if DuplicateStart(cs).Some? {
      assert |Deduplicated(cs)| < |cs|;
    }
  }

  /** How often the marker stands in `cs` from `i` on. */
  function MarkerCount(cs: Components, i: nat): nat
    decreases |cs| - i
  {
    if i + 3 > |cs| then 0 else (if MarkerAt(cs, i) then 1 else 0) + MarkerCount(cs, i + 1)
  }

  lemma {:induction false} MarkerCountSkips(cs: Components, i: nat, j: nat)
    requires i <= j && forall k :: i <= k < j ==> !MarkerAt(cs, k)
    ensures MarkerCount(cs, i) == MarkerCount(cs, j)
    decreases j - i
  {
    if i < j {
      assert !MarkerAt(cs, i);
      MarkerCountSkips(cs, i + 1, j);
    }
  }

  lemma {:induction false} MarkerCountAtFind(cs: Components, i: nat)
    ensures match FindMarker(cs, i)
      case None => MarkerCount(cs, i) == 0
      case Some(j) => MarkerCount(cs, i) == 1 + MarkerCount(cs, j + 1)
    decreases |cs| - i
  {
    if i + 3 <= |cs| && !MarkerAt(cs, i) {
      MarkerCountAtFind(cs, i + 1);
    }
  }

  lemma {:induction false} MarkerCountOfSuffix(cs: Components, start: nat, i: nat)
    requires start + i <= |cs|
    ensures MarkerCount(cs[start..], i) == MarkerCount(cs, start + i)
    decreases |cs| - start - i
  {
    var t := cs[start..];
    if i + 3 <= |t| {
      assert t[i] == cs[start + i] && t[i + 1] == cs[start + i + 1] && t[i + 2] == cs[start + i + 2];
      MarkerCountOfSuffix(cs, start, i + 1);
    }
  }

  /** With at most two markers one round of stripping is enough. */
  lemma {:induction false} DeduplicatedIsStable(cs: Components)
    requires MarkerCount(cs, 0) <= 2
    ensures DuplicateStart(Deduplicated(cs)).None?
  {
    if DuplicateStart(cs).Some? {
      var start := DuplicateStart(cs).value;
      var first := FindMarker(cs, 0).value;
      var t := cs[start..];
      MarkerCountAtFind(cs, 0);
      MarkerCountAtFind(cs, first + 1);
      MarkerCountOfSuffix(cs, start, 0);
      MarkerCountAtFind(cs, start);
      assert MarkerCount(t, 0) <= 1;
      MarkerCountAtFind(t, 0);
      if FindMarker(t, 0).Some? {
        MarkerCountAtFind(t, FindMarker(t, 0).value + 1);
      }
    }
  }

  lemma {:induction false} ApplyAllNoSlash(cs: Components, parts: seq<string>)
    requires AllNoSlash(cs) && AllNoSlash(parts)
    ensures AllNoSlash(ApplyAll(cs, parts))
    decreases |parts|
  {
    if parts != [] {
      assert NoSlash(parts[0]);
      ApplyAllNoSlash(ApplyComponent(cs, parts[0]), parts[1..]);
    }
  }

  lemma {:induction false} ResolvedHasNoSlash(path: string, relativeTo: Option<string>)
    requires Resolvable(path, relativeTo)
    ensures AllNoSlash(Resolve(path, relativeTo))
  {
    SplitHasNoSlash(path);
    hide Split, FindMarker;
    if !IsAbsolute(path) {
      SplitHasNoSlash(relativeTo.value);
      ApplyAllNoSlash([], Split(relativeTo.value));
      ApplyAllNoSlash(ApplyAll([], Split(relativeTo.value)), Split(path));
    } else {
      ApplyAllNoSlash([], Split(path));
    }
  }

  /** A path before the stripping of a duplicated prefix. */
  function Unstripped(path: string, relativeTo: Option<string>): Components
    requires Resolvable(path, relativeTo)
  {
    ApplyAll(if IsAbsolute(path) then [] else ApplyAll([], Split(relativeTo.value)), Split(path))
  }

  /**
   The stored working directory resolves to the components it was stored from, if the marker stood in them at
   most twice.
   */
  lemma {:induction false} WorkingDirectoryResolvesBack(path: string, relativeTo: Option<string>)
    requires Resolvable(path, relativeTo) && MarkerCount(Unstripped(path, relativeTo), 0) <= 2
    ensures var cs := Resolve(path, relativeTo); Resolve(AbsoluteString(cs), None) == cs
  {
    hide Split, ApplyAll, FindMarker, MarkerCount, AbsoluteString;
    var cs := Resolve(path, relativeTo);
    ResolvedIsClean(path, relativeTo);
    ResolvedHasNoSlash(path, relativeTo);
    DeduplicatedIsStable(Unstripped(path, relativeTo));
    AbsoluteStringResolvesBack(cs);
  }
}
