/**
 Breaking text into lines of a given width (src/font.rs). Pieces are spans of the text, as the source's
 are slices of it. The width of a line of glyphs is any function of the string.
 */
module LineBreaking {
  import opened SourceLines

  type Width = string -> real

  datatype Mode = Word | Char

  datatype Wrap = NoWrap | WrapAt(width: real, mode: Mode)

  datatype Piece = Piece(width: real, lo: nat, hi: nat)

  // ----- characters

  /** `char::is_whitespace` (the Unicode White_Space property). */
  predicate IsWhitespace(c: char) {
    '\t' <= c <= '\r' || c == ' ' || c as int in {0x85, 0xA0, 0x1680, 0x2028, 0x2029, 0x202F, 0x205F, 0x3000}
      || 0x2000 <= c as int <= 0x200A
  }

  ghost predicate AllWhitespace(s: string, lo: int, hi: int) {
    forall i :: lo <= i < hi && 0 <= i < |s| ==> IsWhitespace(s[i])
  }

  /** Where `s[lo..hi]` ends without its trailing whitespace. */
  function TrimmedEnd(s: string, lo: nat, hi: nat): (r: nat)
    requires lo <= hi <= |s|
    ensures lo <= r <= hi && AllWhitespace(s, r, hi) && (r > lo ==> !IsWhitespace(s[r - 1]))
    decreases hi
  {
    if hi > lo && IsWhitespace(s[hi - 1]) then TrimmedEnd(s, lo, hi - 1) else hi
  }

  function End(s: string, lo: nat, hi: nat, mode: Mode): (r: nat)
    requires lo <= hi <= |s|
    ensures lo <= r <= hi
  {
    if mode == Word then TrimmedEnd(s, lo, hi) else hi
  }

  // ----- wrap points

  /** A word starts at `k`: whitespace before it, none there. */
  predicate WordStart(s: string, k: nat) {
    0 < k < |s| && IsWhitespace(s[k - 1]) && !IsWhitespace(s[k])
  }

  predicate WrapsAt(s: string, mode: Mode, lo: nat, hi: nat, k: nat)
    requires lo <= hi <= |s|
  {
    lo < k < hi && (mode == Word ==> WordStart(s, k))
  }

  /** The points are in order, the last one is the end of the line, and the others are just where it can be wrapped. */
  ghost predicate PointsOk(s: string, mode: Mode, lo: nat, hi: nat, points: seq<nat>)
    requires lo <= hi <= |s|
  {
    && points != [] && points[|points| - 1] == hi
    && (forall i, j :: 0 <= i < j < |points| ==> points[i] < points[j])
    && (forall k: nat {:trigger k in points} :: k in points <==> k == hi || WrapsAt(s, mode, lo, hi, k))
  }

  /** The first whitespace from `i` on. */
  method FindWhitespace(s: string, i: nat, hi: nat, whitespace: bool) returns (r: nat)
    requires i <= hi <= |s|
    ensures i <= r <= hi && (r < hi ==> IsWhitespace(s[r]) == whitespace)
    ensures forall k :: i <= k < r ==> IsWhitespace(s[k]) != whitespace
  {
    r := i;
    while r < hi && IsWhitespace(s[r]) != whitespace
      invariant i <= r <= hi
      invariant forall k :: i <= k < r ==> IsWhitespace(s[k]) != whitespace
    {
      r := r + 1;
    }
  }

  method WordPoints(s: string, lo: nat, hi: nat) returns (points: seq<nat>)
    requires lo <= hi <= |s|
    ensures PointsOk(s, Word, lo, hi, points)
  {
    points := [];
    var wordStart := lo;
    while true
      invariant lo <= wordStart <= hi && (wordStart > lo ==> WrapsAt(s, Word, lo, hi, wordStart))
      invariant forall i, j :: 0 <= i < j < |points| ==> points[i] < points[j]
      invariant forall i :: 0 <= i < |points| ==> points[i] <= wordStart && points[i] < hi
      invariant forall k: nat :: k in points <==> k <= wordStart && WrapsAt(s, Word, lo, hi, k)
      decreases hi - wordStart
    {
      var wordEnd := FindWhitespace(s, wordStart, hi, true);
      if wordEnd == hi {
        break;
      }
      var next := FindWhitespace(s, wordEnd, hi, false);
      if next == hi {
        break;
      }
      assert forall k :: wordStart < k < next ==> !WordStart(s, k);
      points := points + [next];
      wordStart := next;
    }
    assert forall k :: wordStart < k < hi ==> !WordStart(s, k);
    points := points + [hi];
  }

  method CharPoints(s: string, lo: nat, hi: nat) returns (points: seq<nat>)
    requires lo <= hi <= |s|
    ensures PointsOk(s, Char, lo, hi, points)
  {
    points := [];
    var charEnd := lo + 1;
    while charEnd < hi
      invariant lo < charEnd && (charEnd <= hi || charEnd == lo + 1)
      invariant forall i, j :: 0 <= i < j < |points| ==> points[i] < points[j]
      invariant forall i :: 0 <= i < |points| ==> points[i] < charEnd && points[i] < hi
      invariant forall k: nat :: k in points <==> lo < k < charEnd && k < hi
    {
      points := points + [charEnd];
      charEnd := charEnd + 1;
    }
    points := points + [hi];
  }

  /** Everything that Unicode calls white space. */
  lemma {:induction false} WhitespaceIs(c: char)
    ensures IsWhitespace(c) <==> c as int in {0x9, 0xA, 0xB, 0xC, 0xD, 0x20, 0x85, 0xA0, 0x1680,
      0x2000, 0x2001, 0x2002, 0x2003, 0x2004, 0x2005, 0x2006, 0x2007, 0x2008, 0x2009, 0x200A,
      0x2028, 0x2029, 0x202F, 0x205F, 0x3000}
  {
  }

  ghost predicate NoWhitespace(s: string, a: nat, b: nat) {
    forall i :: a <= i < b && i < |s| ==> !IsWhitespace(s[i])
  }

  /** A word of the line goes from `a` to `b`: as much as there is without whitespace. */
  ghost predicate IsWord(s: string, lo: nat, hi: nat, a: nat, b: nat)
    requires lo <= hi <= |s|
  {
    && lo <= a < b <= hi && NoWhitespace(s, a, b)
    && (a == lo || IsWhitespace(s[a - 1])) && (b == hi || IsWhitespace(s[b]))
  }

  /** Lines are wrapped at words just where one starts, other than at the start of the line, and never inside one. */
  lemma {:induction false} WrapsAtWords(s: string, lo: nat, hi: nat, k: nat)
    requires lo <= hi <= |s|
    ensures WrapsAt(s, Word, lo, hi, k) <==> lo < k && exists b: nat :: IsWord(s, lo, hi, k, b)
    ensures forall a: nat, b: nat :: IsWord(s, lo, hi, a, b) && a < k < b ==> !WrapsAt(s, Word, lo, hi, k)
  {
    if WrapsAt(s, Word, lo, hi, k) {
      var b := k + 1;
      while b < hi && !IsWhitespace(s[b])
        invariant k < b <= hi && NoWhitespace(s, k, b)
      {
        b := b + 1;
      }
      assert IsWord(s, lo, hi, k, b);
    }
  }

  // ----- searching

  datatype SearchResult = Found(index: nat) | Missing(index: nat)

  /** The width of the line from `start` to a wrap point, trailing whitespace left out in `Word` mode. */
  function PointWidth(width: Width, s: string, start: nat, point: nat, mode: Mode): real
    requires start <= point <= |s|
  {
    width(s[start..End(s, start, point, mode)])
  }

  /** The line from `start` to `point`, its trailing whitespace left out, ends at `end`. */
  ghost predicate TrimmedTo(s: string, start: nat, point: nat, end: nat) {
    && start <= end <= point <= |s| && AllWhitespace(s, end, point) && (end > start ==> !IsWhitespace(s[end - 1]))
  }

  /** The width that decides is that of the line without trailing whitespace, or at characters with it. */
  lemma {:induction false} PointWidthIs(width: Width, s: string, start: nat, point: nat, end: nat)
    requires TrimmedTo(s, start, point, end)
    ensures PointWidth(width, s, start, point, Word) == width(s[start..end])
    ensures PointWidth(width, s, start, point, Char) == width(s[start..point])
  {
  }

  /**
   What `binary_search_by` promises: an index in bounds, and where the widths are in order, the place of the
   target.
   */
  ghost predicate SearchOk(widths: seq<real>, target: real, r: SearchResult) {
    match r
    case Found(i) => i < |widths| && widths[i] == target
    case Missing(i) => i <= |widths| && (Ordered(widths) ==>
      (forall k :: 0 <= k < i ==> widths[k] < target) && (forall k :: i <= k < |widths| ==> widths[k] > target))
  }

  ghost predicate Ordered(widths: seq<real>) {
    forall i, j :: 0 <= i <= j < |widths| ==> widths[i] <= widths[j]
  }

  /** The widths of the line from `start` to each of the points. */
  function PointWidths(width: Width, s: string, start: nat, points: seq<nat>, mode: Mode): (r: seq<real>)
    requires forall i :: 0 <= i < |points| ==> start <= points[i] <= |s|
    ensures |r| == |points| && forall i :: 0 <= i < |points| ==> r[i] == PointWidth(width, s, start, points[i], mode)
  {
    if points == [] then []
    else [PointWidth(width, s, start, points[0], mode)] + PointWidths(width, s, start, points[1..], mode)
  }

  method BinarySearch(width: Width, s: string, start: nat, points: seq<nat>, mode: Mode, target: real)
      returns (r: SearchResult)
    requires forall i :: 0 <= i < |points| ==> start <= points[i] <= |s|
    ensures SearchOk(PointWidths(width, s, start, points, mode), target, r)
  {
    ghost var widths := PointWidths(width, s, start, points, mode);
    var lo, hi := 0, |points|;
    while lo < hi
      invariant 0 <= lo <= hi <= |points|
      invariant Ordered(widths) ==> forall k :: 0 <= k < lo ==> widths[k] < target
      invariant Ordered(widths) ==> forall k :: hi <= k < |points| ==> widths[k] > target
    {
      var mid := (lo + hi) / 2;
      var w := PointWidth(width, s, start, points[mid], mode);
      assert w == widths[mid];
      if w == target {
        return Found(mid);
      } else if w < target {
        lo := mid + 1;
      } else {
        hi := mid;
      }
    }
    r := Missing(lo);
  }

  // ----- what the pieces of a line are

  /** Where the line goes on after the `i`th piece. */
  function After(pieces: seq<Piece>, i: nat, end: nat): nat
    requires i < |pieces|
  {
    if i + 1 < |pieces| then pieces[i + 1].lo else end
  }

  /** What lies between a piece and what follows it: nothing, or whitespace where words were wrapped. */
  ghost predicate Gap(s: string, mode: Mode, hi: nat, next: nat) {
    hi <= next && (if mode == Word then AllWhitespace(s, hi, next) else hi == next)
  }

  /** The `i`th piece is measured, begins no earlier than the line, and is followed by a gap only. */
  ghost predicate PieceOk(s: string, width: Width, mode: Mode, pieces: seq<Piece>, i: nat, end: nat)
    requires i < |pieces|
  {
    var p := pieces[i];
    p.lo <= p.hi <= |s| && p.width == width(s[p.lo..p.hi]) && Gap(s, mode, p.hi, After(pieces, i, end))
  }

  /** The pieces cover the line from `start` to `end` in order. */
  ghost predicate Covers(s: string, width: Width, mode: Mode, pieces: seq<Piece>, start: nat, end: nat) {
    && (pieces == [] ==> start == end) && (pieces != [] ==> pieces[0].lo == start)
    && forall i {:trigger PieceOk(s, width, mode, pieces, i, end)} :: 0 <= i < |pieces| ==>
      PieceOk(s, width, mode, pieces, i, end)
  }

  /** Longer lines are at least as wide. */
  ghost predicate Monotone(width: Width) {
    forall a, b {:trigger width(a), width(b)} :: a <= b ==> width(a) <= width(b)
  }

  /** The next place after `k` where the line can be wrapped. */
  ghost predicate IsNextPoint(s: string, mode: Mode, lo: nat, hi: nat, k: nat, next: nat)
    requires lo <= hi <= |s|
  {
    k < next <= hi && (next == hi || WrapsAt(s, mode, lo, hi, next)) && forall j: nat :: k < j < next ==>
      !WrapsAt(s, mode, lo, hi, j)
  }

  /** Taking in what is up to the next wrap point would have reached or exceeded the wrap width. */
  ghost predicate Maximal(s: string, width: Width, wrap: real, mode: Mode, lo: nat, hi: nat, start: nat, end: nat)
    requires lo <= hi <= |s|
  {
    forall next: nat {:trigger IsNextPoint(s, mode, lo, hi, end, next)} ::
      start <= end && IsNextPoint(s, mode, lo, hi, end, next) ==>
      PointWidth(width, s, start, next, mode) >= wrap
  }

  /** A piece of a line broken at characters: it fits, or is a single character that does not. */
  ghost predicate GreedyChar(s: string, width: Width, wrap: real, lo: nat, hi: nat, start: nat, end: nat)
    requires lo <= hi <= |s|
  {
    && start <= end <= |s| && (width(s[start..end]) <= wrap || end <= start + 1)
    && Maximal(s, width, wrap, Char, lo, hi, start, end)
  }

  /**
   A piece of a line wrapped at words, going from `start` to where the next one begins: without trailing whitespace,
   but for the last one, which keeps it.
   */
  ghost predicate GreedyWord(s: string, width: Width, wrap: real, lo: nat, hi: nat, start: nat, end: nat, next: nat)
    requires lo <= hi <= |s|
  {
    && start <= next <= |s| && PointWidth(width, s, start, next, Word) <= wrap
    && Maximal(s, width, wrap, Word, lo, hi, start, next)
    && if next == hi then end == hi else TrimmedTo(s, start, next, end)
  }

  /** `[from, to)` is a single word of the line that is too wide. */
  ghost predicate TooWide(s: string, width: Width, wrap: real, lo: nat, hi: nat, from: nat, to: nat)
    requires lo <= hi <= |s|
  {
    && lo <= from <= to <= hi && (from == lo || WrapsAt(s, Word, lo, hi, from))
    && (from < to ==> IsNextPoint(s, Word, lo, hi, from, to))
    && PointWidth(width, s, from, to, Word) > wrap
  }

  ghost predicate BrokenWord(s: string, width: Width, wrap: real, lo: nat, hi: nat, start: nat, next: nat)
    requires lo <= hi <= |s|
  {
    exists from: nat, to: nat {:trigger TooWide(s, width, wrap, lo, hi, from, to)} ::
      TooWide(s, width, wrap, lo, hi, from, to) && from <= start && next <= to
        && GreedyChar(s, width, wrap, from, to, start, next)
  }

  /** Greedy fit for one piece of a line. */
  ghost predicate Greedy(s: string, width: Width, wrap: real, mode: Mode, lo: nat, hi: nat, start: nat, end: nat,
      next: nat)
    requires lo <= hi <= |s|
  {
    if mode == Char then GreedyChar(s, width, wrap, lo, hi, start, next)
    else GreedyWord(s, width, wrap, lo, hi, start, end, next) || BrokenWord(s, width, wrap, lo, hi, start, next)
  }

  ghost predicate AllGreedy(s: string, width: Width, wrap: real, mode: Mode, lo: nat, hi: nat, pieces: seq<Piece>,
      end: nat)
    requires lo <= hi <= |s|
  {
    forall i {:trigger After(pieces, i, end)} :: 0 <= i < |pieces| ==>
      Greedy(s, width, wrap, mode, lo, hi, pieces[i].lo, pieces[i].hi, After(pieces, i, end))
  }

  // ----- putting lines together

  lemma {:induction false} CoversAppend(s: string, width: Width, mode: Mode, a: seq<Piece>, b: seq<Piece>, start: nat,
      mid: nat, end: nat)
    requires Covers(s, width, mode, a, start, mid) && Covers(s, width, mode, b, mid, end)
    ensures Covers(s, width, mode, a + b, start, end)
  {
    var all := a + b;
    forall i | 0 <= i < |all|
      ensures PieceOk(s, width, mode, all, i, end)
    {
      if i < |a| {
        assert PieceOk(s, width, mode, a, i, mid) && all[i] == a[i];
        assert After(all, i, end) == After(a, i, mid);
      } else {
        assert PieceOk(s, width, mode, b, i - |a|, end) && all[i] == b[i - |a|];
        assert After(all, i, end) == After(b, i - |a|, end);
      }
    }
  }

  lemma {:induction false} GreedyAppend(s: string, width: Width, wrap: real, mode: Mode, lo: nat, hi: nat,
      a: seq<Piece>, b: seq<Piece>, mid: nat, end: nat)
    requires lo <= hi <= |s| && AllGreedy(s, width, wrap, mode, lo, hi, a, mid)
      && AllGreedy(s, width, wrap, mode, lo, hi, b, end)
    requires if b == [] then mid == end else b[0].lo == mid
    ensures AllGreedy(s, width, wrap, mode, lo, hi, a + b, end)
  {
    hide Greedy;
    var all := a + b;
    forall i | 0 <= i < |all|
      ensures Greedy(s, width, wrap, mode, lo, hi, all[i].lo, all[i].hi, After(all, i, end))
    {
      if i < |a| {
        assert all[i] == a[i] && After(all, i, end) == After(a, i, mid);
      } else {
        assert all[i] == b[i - |a|] && After(all, i, end) == After(b, i - |a|, end);
      }
    }
  }

  lemma {:induction false} EndMonotone(s: string, lo: nat, h1: nat, h2: nat, mode: Mode)
    requires lo <= h1 <= h2 <= |s|
    ensures End(s, lo, h1, mode) <= End(s, lo, h2, mode)
  {
    if mode == Word {
      TrimmedEndMonotone(s, lo, h1, h2);
    }
  }

  lemma {:induction false} TrimmedEndMonotone(s: string, lo: nat, h1: nat, h2: nat)
    requires lo <= h1 <= h2 <= |s|
    ensures TrimmedEnd(s, lo, h1) <= TrimmedEnd(s, lo, h2)
    decreases h2
  {
    if h1 < h2 && IsWhitespace(s[h2 - 1]) {
      TrimmedEndMonotone(s, lo, h1, h2 - 1);
    }
  }

  lemma {:induction false} MonotoneAt(width: Width, a: string, b: string)
    requires Monotone(width) && a <= b
    ensures width(a) <= width(b)
  {
  }

  lemma {:induction false} PointWidthMonotone(width: Width, s: string, start: nat, p: nat, q: nat, mode: Mode)
    requires Monotone(width) && start <= p <= q <= |s|
    ensures PointWidth(width, s, start, p, mode) <= PointWidth(width, s, start, q, mode)
  {
    EndMonotone(s, start, p, q, mode);
    hide End, Monotone;
    var a, b := s[start..End(s, start, p, mode)], s[start..End(s, start, q, mode)];
    assert a <= b;
    MonotoneAt(width, a, b);
  }

  /** For a monotone width, the widths up to successive wrap points are in order. */
  lemma {:induction false} WidthsOrdered(width: Width, s: string, start: nat, points: seq<nat>, mode: Mode)
    requires Monotone(width) && (forall i :: 0 <= i < |points| ==> start <= points[i] <= |s|)
    requires forall i, j :: 0 <= i < j < |points| ==> points[i] < points[j]
    ensures Ordered(PointWidths(width, s, start, points, mode))
  {
    hide PointWidths, PointWidth, Monotone;
    var widths := PointWidths(width, s, start, points, mode);
    forall i, j | 0 <= i <= j < |widths|
      ensures widths[i] <= widths[j]
    {
      PointWidthMonotone(width, s, start, points[i], points[j], mode);
    }
  }

  /** The points that follow `points[k]` in the list follow it in the line. */
  lemma {:induction false} NextInList(s: string, mode: Mode, lo: nat, hi: nat, points: seq<nat>, k: nat, next: nat)
    requires lo <= hi <= |s| && PointsOk(s, mode, lo, hi, points) && k < |points|
      && IsNextPoint(s, mode, lo, hi, points[k], next)
    ensures k + 1 < |points| && next == points[k + 1]
  {
    assert next in points;
    var j :| 0 <= j < |points| && points[j] == next;
    assert k + 1 < |points| ==> points[k + 1] in points;
  }

  /** What the loop of `break_lines` knows between two lines. */
  ghost predicate AtPoint(s: string, mode: Mode, lo: nat, hi: nat, points: seq<nat>, idx: nat, start: nat)
    requires lo <= hi <= |s|
  {
    PointsOk(s, mode, lo, hi, points) && idx <= |points| && start == if idx == 0 then lo else points[idx - 1]
  }

  lemma {:induction false} PointsInBounds(s: string, mode: Mode, lo: nat, hi: nat, points: seq<nat>, idx: nat,
      start: nat)
    requires lo <= hi <= |s| && AtPoint(s, mode, lo, hi, points, idx, start)
    ensures forall i :: 0 <= i < |points[idx..]| ==> start <= points[idx..][i] <= |s|
    ensures forall i, j :: 0 <= i < j < |points[idx..]| ==> points[idx..][i] < points[idx..][j]
    ensures lo <= start <= hi
  {
    forall i | 0 <= i < |points|
      ensures lo <= points[i] <= hi
    {
      assert points[i] in points;
    }
  }

  /** The first wrap point of the rest of the line is the next after where it starts. */
  lemma {:induction false} FirstPoint(s: string, mode: Mode, lo: nat, hi: nat, points: seq<nat>, idx: nat, start: nat)
    requires lo <= hi <= |s| && AtPoint(s, mode, lo, hi, points, idx, start) && idx < |points|
    ensures start < points[idx] ==> IsNextPoint(s, mode, lo, hi, start, points[idx])
    ensures start == points[idx] ==> start == lo == hi
    ensures start <= points[idx] && (start == lo || WrapsAt(s, mode, lo, hi, start))
    ensures mode == Char ==> points[idx] <= start + 1
  {
    PointsInBounds(s, mode, lo, hi, points, idx, start);
    assert points[idx] in points;
    if idx > 0 {
      assert points[idx - 1] in points;
    }
    forall j: nat | start < j < points[idx]
      ensures !WrapsAt(s, mode, lo, hi, j)
    {
      if WrapsAt(s, mode, lo, hi, j) {
        assert j in points;
        var i :| 0 <= i < |points| && points[i] == j;
      }
    }
    if mode == Char && start + 1 < points[idx] {
      assert WrapsAt(s, Char, lo, hi, start + 1);
    }
  }

  /** The wrap point chosen by the search, as a place in the rest of the points. */
  function Chosen(r: SearchResult): nat {
    match r
    case Found(i) => i
    case Missing(i) => if i >= 1 then i - 1 else 0
  }

  /** What the search tells of the chosen point and the one after it. */
  lemma {:induction false} ChosenFits(widths: seq<real>, target: real, r: SearchResult)
    requires SearchOk(widths, target, r) && Ordered(widths) && widths != []
    ensures r != Missing(0) ==> widths[Chosen(r)] <= target
    ensures r == Missing(0) ==> widths[0] > target
    ensures Chosen(r) + 1 < |widths| ==> widths[Chosen(r) + 1] >= target
  {
    if r.Missing? && r.index >= 1 {
      assert widths[r.index - 1] < target;
    }
  }

  lemma {:induction false} ChosenIsMaximal(s: string, width: Width, wrap: real, mode: Mode, lo: nat, hi: nat,
      points: seq<nat>, idx: nat, start: nat, k: nat)
    requires lo <= hi <= |s| && AtPoint(s, mode, lo, hi, points, idx, start) && idx <= k < |points|
    requires k + 1 < |points| ==>
      start <= points[k + 1] <= |s| && PointWidth(width, s, start, points[k + 1], mode) >= wrap
    ensures Maximal(s, width, wrap, mode, lo, hi, start, points[k])
  {
    forall next: nat | start <= points[k] && IsNextPoint(s, mode, lo, hi, points[k], next)
      ensures PointWidth(width, s, start, next, mode) >= wrap
    {
      NextInList(s, mode, lo, hi, points, k, next);
    }
  }

  /**
   The width up to the chosen point fits, unless even the first is too wide; up to the next one it reaches
   the wrap width.
   */
  lemma {:induction false} SearchTells(s: string, width: Width, wrap: real, mode: Mode, start: nat, rest: seq<nat>,
      r: SearchResult)
    requires Monotone(width) && rest != [] && (forall i :: 0 <= i < |rest| ==> start <= rest[i] <= |s|)
    requires forall i, j :: 0 <= i < j < |rest| ==> rest[i] < rest[j]
    requires SearchOk(PointWidths(width, s, start, rest, mode), wrap, r)
    ensures Chosen(r) < |rest|
    ensures r != Missing(0) ==> PointWidth(width, s, start, rest[Chosen(r)], mode) <= wrap
    ensures r == Missing(0) ==> PointWidth(width, s, start, rest[0], mode) > wrap
    ensures Chosen(r) + 1 < |rest| ==> PointWidth(width, s, start, rest[Chosen(r) + 1], mode) >= wrap
  {
    hide SearchOk, PointWidths, PointWidth, Monotone, Ordered;
    WidthsOrdered(width, s, start, rest, mode);
    ChosenInBounds(PointWidths(width, s, start, rest, mode), wrap, r);
    ChosenFits(PointWidths(width, s, start, rest, mode), wrap, r);
  }

  /** The piece up to the chosen point is greedy. */
  lemma {:induction false} ChosenIsGreedy(s: string, width: Width, wrap: real, mode: Mode, lo: nat, hi: nat,
      points: seq<nat>, idx: nat, start: nat, r: SearchResult)
    requires lo <= hi <= |s| && AtPoint(s, mode, lo, hi, points, idx, start) && idx < |points| && Monotone(width)
    requires forall i :: 0 <= i < |points[idx..]| ==> start <= points[idx..][i] <= |s|
    requires SearchOk(PointWidths(width, s, start, points[idx..], mode), wrap, r) && (r == Missing(0) ==> mode == Char)
    ensures idx + Chosen(r) < |points| && var next := points[idx + Chosen(r)];
      start <= next <= |s| && Greedy(s, width, wrap, mode, lo, hi, start,
        if next != hi then End(s, start, next, mode) else next, next)
  {
    hide SearchOk, Monotone, PointWidths, AtPoint, TrimmedEnd, Maximal, BrokenWord;
    var rest := points[idx..];
    PointsInBounds(s, mode, lo, hi, points, idx, start);
    SearchTells(s, width, wrap, mode, start, rest, r);
    FirstPoint(s, mode, lo, hi, points, idx, start);
    hide IsNextPoint, WrapsAt;
    var k := idx + Chosen(r);
    assert points[k] == rest[Chosen(r)];
    if k + 1 < |points| {
      assert points[k + 1] == rest[Chosen(r) + 1];
    }
    ChosenIsMaximal(s, width, wrap, mode, lo, hi, points, idx, start, k);
  }

  lemma {:induction false} BrokenIsGreedy(s: string, width: Width, wrap: real, lo: nat, hi: nat, from: nat, to: nat,
      pieces: seq<Piece>)
    requires lo <= hi <= |s| && TooWide(s, width, wrap, lo, hi, from, to)
    requires Covers(s, width, Char, pieces, from, to) && AllGreedy(s, width, wrap, Char, from, to, pieces, to)
    ensures AllGreedy(s, width, wrap, Word, lo, hi, pieces, to)
  {
    forall i | 0 <= i < |pieces|
      ensures Greedy(s, width, wrap, Word, lo, hi, pieces[i].lo, pieces[i].hi, After(pieces, i, to))
    {
      var next := After(pieces, i, to);
      assert Greedy(s, width, wrap, Char, from, to, pieces[i].lo, pieces[i].hi, next);
      CoveredStarts(s, width, pieces, from, to, i);
      assert BrokenWord(s, width, wrap, lo, hi, pieces[i].lo, next);
    }
  }

  /** Pieces that cover a span lie in it. */
  lemma {:induction false} CoveredStarts(s: string, width: Width, pieces: seq<Piece>, from: nat, to: nat, i: nat)
    requires Covers(s, width, Char, pieces, from, to) && i < |pieces|
    ensures from <= pieces[i].lo <= After(pieces, i, to) <= to
    decreases |pieces| - i
  {
    StartsAscend(s, width, pieces, from, to, i);
    assert PieceOk(s, width, Char, pieces, i, to);
    if i + 1 < |pieces| {
      CoveredStarts(s, width, pieces, from, to, i + 1);
    }
  }

  lemma {:induction false} StartsAscend(s: string, width: Width, pieces: seq<Piece>, from: nat, to: nat, i: nat)
    requires Covers(s, width, Char, pieces, from, to) && i < |pieces|
    ensures from <= pieces[i].lo
    decreases i
  {
    if i > 0 {
      StartsAscend(s, width, pieces, from, to, i - 1);
      assert PieceOk(s, width, Char, pieces, i - 1, to);
    }
  }

  lemma {:induction false} CharCoversWord(s: string, width: Width, pieces: seq<Piece>, from: nat, to: nat)
    requires Covers(s, width, Char, pieces, from, to)
    ensures Covers(s, width, Word, pieces, from, to)
  {
    forall i | 0 <= i < |pieces|
      ensures PieceOk(s, width, Word, pieces, i, to)
    {
      assert PieceOk(s, width, Char, pieces, i, to);
    }
  }

  // ----- breaking lines

  function Flat(lines: seq<seq<Piece>>): seq<Piece> {
    if lines == [] then [] else Flat(lines[..|lines| - 1]) + lines[|lines| - 1]
  }

  /** A source line that leaves no piece: an empty one, wrapped at words, where not even nothing fits. */
  predicate Vanishes(width: Width, wrap: real, mode: Mode, lo: nat, hi: nat) {
    lo == hi && mode == Word && width("") > wrap
  }

  /** The pieces of one source line. */
  ghost predicate LineOk(s: string, width: Width, wrap: Wrap, line: Span, pieces: seq<Piece>) {
    line.lo <= line.hi <= |s| && match wrap
      case NoWrap => pieces == [Piece(width(s[line.lo..line.hi]), line.lo, line.hi)]
      case WrapAt(w, mode) =>
        && Covers(s, width, mode, pieces, line.lo, line.hi)
        && (pieces == [] <==> Vanishes(width, w, mode, line.lo, line.hi))
        && (Monotone(width) ==> AllGreedy(s, width, w, mode, line.lo, line.hi, pieces, line.hi))
  }

  function Rank(wrap: Wrap): nat {
    match wrap case NoWrap => 0 case WrapAt(_, mode) => if mode == Word then 1 else 0
  }

  /** `break_lines` on the slice `s[lo..hi]`; `perLine` tells which pieces come from which source line. */
  method BreakLines(s: string, lo: nat, hi: nat, width: Width, wrap: Wrap)
      returns (pieces: seq<Piece>, ghost perLine: seq<seq<Piece>>)
    requires lo <= hi <= |s|
    ensures pieces == Flat(perLine) && |perLine| == |Lines(s, lo, hi)|
    ensures forall i :: 0 <= i < |perLine| ==> LineOk(s, width, wrap, Lines(s, lo, hi)[i], perLine[i])
    ensures Tiled(s, lo, hi, Lines(s, lo, hi)) && Conserves(s, lo, hi, wrap, pieces)
    decreases Rank(wrap), 1
  {
    var lines := Lines(s, lo, hi);
    pieces, perLine := [], [];
    for i := 0 to |lines|
      invariant |perLine| == i && pieces == Flat(perLine)
      invariant forall j :: 0 <= j < i ==> LineOk(s, width, wrap, lines[j], perLine[j])
    {
      var line := lines[i];
      var more;
      if wrap.NoWrap? {
        more := [Piece(width(s[line.lo..line.hi]), line.lo, line.hi)];
      } else {
        LineHasNoNewline(s, lo, hi, i);
        more := BreakLine(s, line.lo, line.hi, width, wrap.width, wrap.mode);
      }
      assert LineOk(s, width, wrap, line, more);
      hide LineOk;
      ghost var before := perLine;
      perLine := perLine + [more];
      assert perLine[..|perLine| - 1] == before;
      pieces := pieces + more;
    }
    LinesTile(s, lo, hi);
    AllTextConserved(s, lo, hi, width, wrap, perLine);
  }

  /**
   No text is lost or invented: without wrapping and broken at characters, the pieces make up the text without its
   line endings; wrapped at words, they do once whitespace is left out of both.
   */
  ghost predicate Conserves(s: string, lo: nat, hi: nat, wrap: Wrap, pieces: seq<Piece>) {
    && lo <= hi <= |s| && (forall i :: 0 <= i < |pieces| ==> pieces[i].lo <= pieces[i].hi <= |s|)
    && (!(wrap.WrapAt? && wrap.mode == Word) ==> Text(s, pieces) == WithoutLineEndings(s[lo..hi]))
    && WithoutWhitespace(Text(s, pieces)) == WithoutWhitespace(s[lo..hi])
  }

  /** What is true of the pieces made so far. */
  ghost predicate Progress(s: string, width: Width, wrap: real, mode: Mode, lo: nat, hi: nat, points: seq<nat>,
      idx: nat, start: nat, pieces: seq<Piece>)
    requires lo <= hi <= |s|
  {
    && AtPoint(s, mode, lo, hi, points, idx, start) && Covers(s, width, mode, pieces, lo, start)
    && (Monotone(width) ==> AllGreedy(s, width, wrap, mode, lo, hi, pieces, start))
  }

  /** The pieces of a too wide word are added. */
  lemma {:induction false} ProgressBroken(s: string, width: Width, wrap: real, lo: nat, hi: nat, points: seq<nat>,
      idx: nat, start: nat, pieces: seq<Piece>, broken: seq<Piece>)
    requires lo <= hi <= |s| && idx < |points| && Progress(s, width, wrap, Word, lo, hi, points, idx, start, pieces)
    requires Covers(s, width, Word, broken, start, points[idx])
      && (Monotone(width) ==> AllGreedy(s, width, wrap, Word, lo, hi, broken, points[idx]))
    ensures Progress(s, width, wrap, Word, lo, hi, points, idx + 1, points[idx], pieces + broken)
  {
    hide Covers, AllGreedy, Monotone, PointsOk;
    CoversAppend(s, width, Word, pieces, broken, lo, start, points[idx]);
    if Monotone(width) {
      AppendBroken(s, width, wrap, Word, lo, hi, pieces, broken, start, points[idx]);
    }
  }

  /** The piece up to the chosen wrap point is added. */
  lemma {:induction false} ProgressPiece(s: string, width: Width, wrap: real, mode: Mode, lo: nat, hi: nat,
      points: seq<nat>, idx: nat, start: nat, pieces: seq<Piece>, r: SearchResult, p: Piece)
    requires lo <= hi <= |s| && idx < |points| && Progress(s, width, wrap, mode, lo, hi, points, idx, start, pieces)
    requires forall i :: 0 <= i < |points[idx..]| ==> start <= points[idx..][i] <= |s|
    requires SearchOk(PointWidths(width, s, start, points[idx..], mode), wrap, r) && (r == Missing(0) ==> mode == Char)
    requires Chosen(r) < |points[idx..]| && var end := points[idx..][Chosen(r)];
      var trimmed := if end != hi then End(s, start, end, mode) else end;
        p == Piece(width(s[start..trimmed]), start, trimmed)
    ensures idx + Chosen(r) < |points| && Progress(s, width, wrap, mode, lo, hi, points, idx + Chosen(r) + 1,
      points[idx + Chosen(r)], pieces + [p])
  {
    hide Covers, AllGreedy, Monotone, PointsOk, SearchOk, End, PointWidths;
    var end := points[idx..][Chosen(r)];
    assert end == points[idx + Chosen(r)];
    OnePiece(s, width, wrap, mode, lo, hi, p, end);
    CoversAppend(s, width, mode, pieces, [p], lo, start, end);
    if Monotone(width) {
      ChosenIsGreedy(s, width, wrap, mode, lo, hi, points, idx, start, r);
      OneGreedy(s, width, wrap, mode, lo, hi, p, end);
      GreedyAppend(s, width, wrap, mode, lo, hi, pieces, [p], start, end);
    }
  }

  lemma {:induction false} ProgressFacts(s: string, width: Width, wrap: real, mode: Mode, lo: nat, hi: nat,
      points: seq<nat>, idx: nat, start: nat, pieces: seq<Piece>)
    requires lo <= hi <= |s| && Progress(s, width, wrap, mode, lo, hi, points, idx, start, pieces)
    ensures AtPoint(s, mode, lo, hi, points, idx, start) && idx <= |points|
    ensures idx == |points| ==>
      start == hi && Covers(s, width, mode, pieces, lo, hi)
      && (Monotone(width) ==> AllGreedy(s, width, wrap, mode, lo, hi, pieces, hi))
  {
  }

  /** One source line: find where it can be wrapped, then take as much as fits, again and again. */
  method BreakLine(s: string, lo: nat, hi: nat, width: Width, wrap: real, mode: Mode) returns (pieces: seq<Piece>)
    requires lo <= hi <= |s| && NoNewline(s, lo, hi)
    ensures Covers(s, width, mode, pieces, lo, hi) && (pieces == [] <==> Vanishes(width, wrap, mode, lo, hi))
    ensures Monotone(width) ==> AllGreedy(s, width, wrap, mode, lo, hi, pieces, hi)
    decreases Rank(WrapAt(wrap, mode)), 0
  {
    hide PointsOk, Covers, AllGreedy, Monotone;
    var points;
    if mode == Word {
      points := WordPoints(s, lo, hi);
    } else {
      points := CharPoints(s, lo, hi);
    }
    var idx, start := 0, lo;
    pieces := [];
    NoPieces(s, width, wrap, mode, lo, hi);
    assert Progress(s, width, wrap, mode, lo, hi, points, idx, start, pieces);
    PointsOfLine(s, mode, lo, hi, points);
    hide Progress;
    while idx < |points|
      invariant idx <= |points| && Progress(s, width, wrap, mode, lo, hi, points, idx, start, pieces)
      invariant if idx == 0 then pieces == [] && start == lo else pieces == [] <==> Vanishes(width, wrap, mode, lo, hi)
    {
      idx, start, pieces := NextPiece(s, lo, hi, width, wrap, mode, points, idx, start, pieces);
    }
    ProgressFacts(s, width, wrap, mode, lo, hi, points, idx, start, pieces);
  }

  /** An empty line has one wrap point, its end; another one has none at its start. */
  lemma {:induction false} PointsOfLine(s: string, mode: Mode, lo: nat, hi: nat, points: seq<nat>)
    requires lo <= hi <= |s| && PointsOk(s, mode, lo, hi, points)
    ensures points != [] && (points[0] == lo <==> lo == hi) && (lo == hi ==> |points| == 1)
  {
    assert points[0] in points;
    if |points| > 1 {
      assert points[0] < points[|points| - 1];
    }
  }

  lemma {:induction false} CoversSomething(s: string, width: Width, mode: Mode, pieces: seq<Piece>, start: nat,
      end: nat)
    requires Covers(s, width, mode, pieces, start, end) && start != end
    ensures pieces != []
  {
  }

  lemma {:induction false} RestOfEmpty(s: string, mode: Mode, lo: nat, hi: nat, points: seq<nat>, idx: nat, start: nat)
    requires lo <= hi <= |s| && AtPoint(s, mode, lo, hi, points, idx, start) && idx < |points| && start == points[idx]
    ensures points[idx..] == [start]
  {
    FirstPoint(s, mode, lo, hi, points, idx, start);
    PointsOfLine(s, mode, lo, hi, points);
  }

  /** Of an empty rest the search finds that it is too wide exactly if nothing does not fit. */
  lemma {:induction false} NothingFits(s: string, width: Width, wrap: real, start: nat, rest: seq<nat>, r: SearchResult)
    requires rest == [start] && start <= |s| && SearchOk(PointWidths(width, s, start, rest, Word), wrap, r)
    ensures r == Missing(0) <==> width("") > wrap
  {
    assert s[start..start] == "";
    var widths := PointWidths(width, s, start, rest, Word);
    assert widths[0] == width("") && Ordered(widths);
  }

  /** One turn of the loop: the piece up to the wrap point that a binary search finds, or a word broken up. */
  method NextPiece(s: string, lo: nat, hi: nat, width: Width, wrap: real, mode: Mode, points: seq<nat>, idx: nat,
      start: nat, pieces: seq<Piece>)
    returns (idx2: nat, start2: nat, pieces2: seq<Piece>)
    requires lo <= hi <= |s| && NoNewline(s, lo, hi) && idx < |points|
      && Progress(s, width, wrap, mode, lo, hi, points, idx, start, pieces)
    ensures idx < idx2 <= |points| && Progress(s, width, wrap, mode, lo, hi, points, idx2, start2, pieces2)
    ensures pieces <= pieces2 && (pieces2 == pieces <==> Vanishes(width, wrap, mode, start, points[idx]))
    decreases Rank(WrapAt(wrap, mode)), 0, 0
  {
    hide Progress, AtPoint, PointsOk, Covers, AllGreedy, Monotone, SearchOk, PointWidths, End, NoNewline;
    ProgressFacts(s, width, wrap, mode, lo, hi, points, idx, start, pieces);
    PointsInBounds(s, mode, lo, hi, points, idx, start);
    var rest := points[idx..];
    var r := BinarySearch(width, s, start, rest, mode, wrap);
    FirstPoint(s, mode, lo, hi, points, idx, start);
    if start == points[idx] && mode == Word {
      RestOfEmpty(s, mode, lo, hi, points, idx, start);
      NothingFits(s, width, wrap, start, rest, r);
    }
    if r == Missing(0) && mode == Word {
      var broken := BreakWord(s, lo, hi, width, wrap, points, idx, start, r);
      ProgressBroken(s, width, wrap, lo, hi, points, idx, start, pieces, broken);
      return idx + 1, points[idx], pieces + broken;
    }
    ChosenInBounds(PointWidths(width, s, start, rest, mode), wrap, r);
    var lineEnd := rest[Chosen(r)];
    var trimmed := if lineEnd != hi then End(s, start, lineEnd, mode) else lineEnd;
    var piece := Piece(width(s[start..trimmed]), start, trimmed);
    ProgressPiece(s, width, wrap, mode, lo, hi, points, idx, start, pieces, r, piece);
    return idx + Chosen(r) + 1, lineEnd, pieces + [piece];
  }

  lemma {:induction false} NoPieces(s: string, width: Width, wrap: real, mode: Mode, lo: nat, hi: nat)
    requires lo <= hi <= |s|
    ensures Covers(s, width, mode, [], lo, lo) && AllGreedy(s, width, wrap, mode, lo, hi, [], lo)
  {
  }

  lemma {:induction false} ChosenInBounds(widths: seq<real>, target: real, r: SearchResult)
    requires SearchOk(widths, target, r) && widths != []
    ensures Chosen(r) < |widths|
  {
  }

  lemma {:induction false} OnePiece(s: string, width: Width, wrap: real, mode: Mode, lo: nat, hi: nat, p: Piece,
      next: nat)
    requires p.lo <= p.hi <= next <= |s| && p.width == width(s[p.lo..p.hi])
      && p.hi == (if next != hi then End(s, p.lo, next, mode) else next)
    ensures Covers(s, width, mode, [p], p.lo, next)
  {
  }

  lemma {:induction false} OneGreedy(s: string, width: Width, wrap: real, mode: Mode, lo: nat, hi: nat, p: Piece,
      next: nat)
    requires lo <= hi <= |s| && Greedy(s, width, wrap, mode, lo, hi, p.lo, p.hi, next)
    ensures AllGreedy(s, width, wrap, mode, lo, hi, [p], next)
  {
  }

  lemma {:induction false} AppendBroken(s: string, width: Width, wrap: real, mode: Mode, lo: nat, hi: nat,
      pieces: seq<Piece>, broken: seq<Piece>, start: nat, end: nat)
    requires lo <= hi <= |s| && AllGreedy(s, width, wrap, mode, lo, hi, pieces, start)
      && AllGreedy(s, width, wrap, mode, lo, hi, broken, end)
    requires Covers(s, width, mode, broken, start, end)
    ensures AllGreedy(s, width, wrap, mode, lo, hi, pieces + broken, end)
  {
    hide AllGreedy;
    GreedyAppend(s, width, wrap, mode, lo, hi, pieces, broken, start, end);
  }

  /** A word that is too wide is broken at characters by `break_lines` itself. */
  method BreakWord(s: string, lo: nat, hi: nat, width: Width, wrap: real, points: seq<nat>, idx: nat, start: nat,
      ghost r: SearchResult)
    returns (pieces: seq<Piece>)
    requires lo <= hi <= |s| && AtPoint(s, Word, lo, hi, points, idx, start) && idx < |points| && NoNewline(s, lo, hi)
    requires forall i :: 0 <= i < |points[idx..]| ==> start <= points[idx..][i] <= |s|
    requires SearchOk(PointWidths(width, s, start, points[idx..], Word), wrap, r) && r == Missing(0)
    ensures Covers(s, width, Word, pieces, start, points[idx]) && (pieces == [] <==> start == points[idx])
    ensures Monotone(width) ==> AllGreedy(s, width, wrap, Word, lo, hi, pieces, points[idx])
    decreases 0, 2
  {
    hide Covers, AllGreedy, Monotone, SearchOk, Tiled, Conserves, AtPoint;
    PointsInBounds(s, Word, lo, hi, points, idx, start);
    FirstPoint(s, Word, lo, hi, points, idx, start);
    var wordEnd := points[idx];
    assert points[idx..][0] == wordEnd && wordEnd <= hi by { assert wordEnd in points; }
    OneLine(s, start, wordEnd);
    ghost var perLine;
    pieces, perLine := BreakLines(s, start, wordEnd, width, WrapAt(wrap, Char));
    if start == wordEnd {
      assert pieces == [];
      NoPieces(s, width, wrap, Word, start, start);
      NoPieces(s, width, wrap, Char, start, start);
    } else {
      assert perLine == [perLine[0]] && perLine[..0] == [];
      assert pieces == [] + perLine[0] == perLine[0];
      assert LineOk(s, width, WrapAt(wrap, Char), Span(start, wordEnd), pieces);
    }
    CharCoversWord(s, width, pieces, start, wordEnd);
    if start != wordEnd {
      CoversSomething(s, width, Char, pieces, start, wordEnd);
    }
    if Monotone(width) {
      WordIsTooWide(s, width, wrap, lo, hi, points, idx, start, r);
      BrokenIsGreedy(s, width, wrap, lo, hi, start, wordEnd, pieces);
    }
  }

  lemma {:induction false} WordIsTooWide(s: string, width: Width, wrap: real, lo: nat, hi: nat, points: seq<nat>,
      idx: nat, start: nat, r: SearchResult)
    requires lo <= hi <= |s| && AtPoint(s, Word, lo, hi, points, idx, start) && idx < |points| && Monotone(width)
    requires forall i :: 0 <= i < |points[idx..]| ==> start <= points[idx..][i] <= |s|
    requires SearchOk(PointWidths(width, s, start, points[idx..], Word), wrap, r) && r == Missing(0)
    ensures TooWide(s, width, wrap, lo, hi, start, points[idx])
  {
    hide Monotone, SearchOk, PointWidths, PointWidth;
    PointsInBounds(s, Word, lo, hi, points, idx, start);
    FirstPoint(s, Word, lo, hi, points, idx, start);
    SearchTells(s, width, wrap, Word, start, points[idx..], r);
    hide IsNextPoint;
    assert points[idx..][0] == points[idx] && points[idx] in points;
  }

  // ----- conservation of text

  function Text(s: string, pieces: seq<Piece>): string
    requires forall i :: 0 <= i < |pieces| ==> pieces[i].lo <= pieces[i].hi <= |s|
  {
    if pieces == [] then "" else s[pieces[0].lo..pieces[0].hi] + Text(s, pieces[1..])
  }

  function WithoutWhitespace(s: string): string {
    if s == "" then "" else (if IsWhitespace(s[0]) then "" else [s[0]]) + WithoutWhitespace(s[1..])
  }

  lemma {:induction false} WithoutWhitespaceAppends(a: string, b: string)
    ensures WithoutWhitespace(a + b) == WithoutWhitespace(a) + WithoutWhitespace(b)
    decreases |a|
  {
    if a == "" {
      assert a + b == b;
    } else {
      assert (a + b)[0] == a[0] && (a + b)[1..] == a[1..] + b;
      WithoutWhitespaceAppends(a[1..], b);
    }
  }

  lemma {:induction false} OnlyWhitespace(s: string, lo: nat, hi: nat)
    requires lo <= hi <= |s| && AllWhitespace(s, lo, hi)
    ensures WithoutWhitespace(s[lo..hi]) == ""
    decreases hi - lo
  {
    if lo < hi {
      assert s[lo..hi][1..] == s[lo + 1..hi];
      OnlyWhitespace(s, lo + 1, hi);
    }
  }

  lemma {:induction false} CoversTail(s: string, width: Width, mode: Mode, pieces: seq<Piece>, start: nat, end: nat)
    requires Covers(s, width, mode, pieces, start, end) && pieces != []
    ensures PieceOk(s, width, mode, pieces, 0, end) && Covers(s, width, mode, pieces[1..], After(pieces, 0, end), end)
  {
    assert PieceOk(s, width, mode, pieces, 0, end);
    var rest := pieces[1..];
    forall i | 0 <= i < |rest|
      ensures PieceOk(s, width, mode, rest, i, end)
    {
      assert PieceOk(s, width, mode, pieces, i + 1, end) && rest[i] == pieces[i + 1];
      assert After(rest, i, end) == After(pieces, i + 1, end);
    }
  }

  lemma {:induction false} CoversEnd(s: string, width: Width, mode: Mode, pieces: seq<Piece>, start: nat, end: nat)
    requires Covers(s, width, mode, pieces, start, end)
    ensures start <= end
    decreases |pieces|
  {
    if pieces != [] {
      CoversTail(s, width, mode, pieces, start, end);
      CoversEnd(s, width, mode, pieces[1..], After(pieces, 0, end), end);
    }
  }

  lemma {:induction false} CoversBounds(s: string, width: Width, mode: Mode, pieces: seq<Piece>, start: nat, end: nat)
    requires Covers(s, width, mode, pieces, start, end)
    ensures forall i :: 0 <= i < |pieces| ==> pieces[i].lo <= pieces[i].hi <= |s|
  {
    forall i | 0 <= i < |pieces|
      ensures pieces[i].lo <= pieces[i].hi <= |s|
    {
      assert PieceOk(s, width, mode, pieces, i, end);
    }
  }

  /** The text of a line whose first piece is followed by a gap up to `next`. */
  lemma {:induction false} GapConserves(s: string, mode: Mode, start: nat, hi: nat, next: nat, end: nat, rest: string)
    requires start <= hi <= next <= end <= |s| && Gap(s, mode, hi, next)
    requires mode == Char ==> rest == s[next..end]
    requires WithoutWhitespace(rest) == WithoutWhitespace(s[next..end])
    ensures mode == Char ==> s[start..hi] + rest == s[start..end]
    ensures WithoutWhitespace(s[start..hi] + rest) == WithoutWhitespace(s[start..end])
  {
    hide WithoutWhitespace;
    OnlyWhitespace(s, hi, next);
    WithoutWhitespaceAppends(s[start..hi], rest);
    WithoutWhitespaceAppends(s[start..hi], s[hi..next] + s[next..end]);
    WithoutWhitespaceAppends(s[hi..next], s[next..end]);
    assert s[start..end] == s[start..hi] + (s[hi..next] + s[next..end]);
  }

  /**
   No text is lost or invented, whatever the widths: broken at characters, the pieces make up the line;
   wrapped at words, they do once whitespace is left out of both.
   */
  lemma {:induction false} PiecesConserveText(s: string, width: Width, mode: Mode, pieces: seq<Piece>, start: nat,
      end: nat)
    requires Covers(s, width, mode, pieces, start, end) && end <= |s|
    ensures start <= end && forall i :: 0 <= i < |pieces| ==> pieces[i].lo <= pieces[i].hi <= |s|
    ensures mode == Char ==> Text(s, pieces) == s[start..end]
    ensures WithoutWhitespace(Text(s, pieces)) == WithoutWhitespace(s[start..end])
    decreases |pieces|
  {
    CoversBounds(s, width, mode, pieces, start, end);
    CoversEnd(s, width, mode, pieces, start, end);
    if pieces != [] {
      CoversTail(s, width, mode, pieces, start, end);
      var p, next := pieces[0], After(pieces, 0, end);
      CoversEnd(s, width, mode, pieces[1..], next, end);
      PiecesConserveText(s, width, mode, pieces[1..], next, end);
      hide Covers, WithoutWhitespace;
      GapConserves(s, mode, start, p.hi, next, end, Text(s, pieces[1..]));
    }
  }

  /** The pieces of one source line have its text, or for words its text but for whitespace. */
  lemma {:induction false} LineConserved(s: string, width: Width, wrap: Wrap, line: Span, pieces: seq<Piece>)
    requires LineOk(s, width, wrap, line, pieces)
    ensures forall i :: 0 <= i < |pieces| ==> pieces[i].lo <= pieces[i].hi <= |s|
    ensures SameText(wrap, Text(s, pieces), s[line.lo..line.hi])
  {
    match wrap
    case NoWrap =>
      assert pieces[1..] == [];
      assert Text(s, pieces) == s[line.lo..line.hi] + "";
    case WrapAt(_, mode) => PiecesConserveText(s, width, mode, pieces, line.lo, line.hi);
  }

  lemma {:induction false} TextAppends(s: string, a: seq<Piece>, b: seq<Piece>)
    requires forall i :: 0 <= i < |a| ==> a[i].lo <= a[i].hi <= |s|
    requires forall i :: 0 <= i < |b| ==> b[i].lo <= b[i].hi <= |s|
    ensures forall i :: 0 <= i < |a + b| ==> (a + b)[i].lo <= (a + b)[i].hi <= |s|
    ensures Text(s, a + b) == Text(s, a) + Text(s, b)
    decreases |a|
  {
    if a == [] {
      assert a + b == b;
    } else {
      assert (a + b)[1..] == a[1..] + b;
      TextAppends(s, a[1..], b);
    }
  }

  lemma {:induction false} LinesTextAppends(s: string, a: seq<Span>, line: Span)
    requires forall i :: 0 <= i < |a| ==> a[i].lo <= a[i].hi <= |s|
    requires line.lo <= line.hi <= |s|
    ensures LinesText(s, a + [line]) == LinesText(s, a) + s[line.lo..line.hi]
    decreases |a|
  {
    if a == [] {
      assert a + [line] == [line];
    } else {
      assert (a + [line])[1..] == a[1..] + [line];
      LinesTextAppends(s, a[1..], line);
    }
  }

  /** The same text, or the same but for whitespace. */
  predicate SameText(wrap: Wrap, a: string, b: string) {
    (!(wrap.WrapAt? && wrap.mode == Word) ==> a == b) && WithoutWhitespace(a) == WithoutWhitespace(b)
  }

  lemma {:induction false} SameTextAppends(wrap: Wrap, a: string, b: string, c: string, d: string)
    requires SameText(wrap, a, b) && SameText(wrap, c, d)
    ensures SameText(wrap, a + c, b + d)
  {
    WithoutWhitespaceAppends(a, c);
    WithoutWhitespaceAppends(b, d);
  }

  lemma {:induction false} LinesInBounds(s: string, width: Width, wrap: Wrap, lines: seq<Span>,
      perLine: seq<seq<Piece>>)
    requires |lines| == |perLine| && forall i :: 0 <= i < |lines| ==> LineOk(s, width, wrap, lines[i], perLine[i])
    ensures forall i :: 0 <= i < |lines| ==> lines[i].lo <= lines[i].hi <= |s|
  {
  }

  lemma {:induction false} FlatConserved(s: string, width: Width, wrap: Wrap, lines: seq<Span>,
      perLine: seq<seq<Piece>>)
    requires |lines| == |perLine| && forall i :: 0 <= i < |lines| ==> LineOk(s, width, wrap, lines[i], perLine[i])
    ensures forall i :: 0 <= i < |lines| ==> lines[i].lo <= lines[i].hi <= |s|
    ensures forall i :: 0 <= i < |Flat(perLine)| ==> Flat(perLine)[i].lo <= Flat(perLine)[i].hi <= |s|
    ensures SameText(wrap, Text(s, Flat(perLine)), LinesText(s, lines))
    decreases |lines|
  {
    LinesInBounds(s, width, wrap, lines, perLine);
    hide LineOk, WithoutWhitespace;
    if lines != [] {
      var n := |lines| - 1;
      LineConserved(s, width, wrap, lines[n], perLine[n]);
      FlatConserved(s, width, wrap, lines[..n], perLine[..n]);
      assert lines == lines[..n] + [lines[n]] && Flat(perLine) == Flat(perLine[..n]) + perLine[n];
      hide Flat, SameText;
      OneMoreConserved(s, wrap, lines[..n], lines[n], Flat(perLine[..n]), perLine[n]);
    }
  }

  lemma {:induction false} OneMoreConserved(s: string, wrap: Wrap, lines: seq<Span>, line: Span, pieces: seq<Piece>,
      more: seq<Piece>)
    requires forall i :: 0 <= i < |lines| ==> lines[i].lo <= lines[i].hi <= |s|
    requires forall i :: 0 <= i < |pieces| ==> pieces[i].lo <= pieces[i].hi <= |s|
    requires forall i :: 0 <= i < |more| ==> more[i].lo <= more[i].hi <= |s|
    requires line.lo <= line.hi <= |s|
    requires SameText(wrap, Text(s, pieces), LinesText(s, lines)) && SameText(wrap, Text(s, more), s[line.lo..line.hi])
    ensures forall i :: 0 <= i < |pieces + more| ==> (pieces + more)[i].lo <= (pieces + more)[i].hi <= |s|
    ensures SameText(wrap, Text(s, pieces + more), LinesText(s, lines + [line]))
  {
    hide SameText, Text, LinesText;
    TextAppends(s, pieces, more);
    LinesTextAppends(s, lines, line);
    SameTextAppends(wrap, Text(s, pieces), LinesText(s, lines), Text(s, more), s[line.lo..line.hi]);
  }

  /** Line endings are whitespace. */
  lemma {:induction false} EndingsAreWhitespace(t: string)
    ensures WithoutWhitespace(WithoutLineEndings(t)) == WithoutWhitespace(t)
    decreases |t|
  {
    if t != "" {
      if t[0] == '\n' {
        EndingsAreWhitespace(t[1..]);
      } else if t[0] == '\r' && |t| > 1 && t[1] == '\n' {
        EndingsAreWhitespace(t[2..]);
        assert t[1..][1..] == t[2..];
      } else {
        EndingsAreWhitespace(t[1..]);
        assert ([t[0]] + WithoutLineEndings(t[1..]))[1..] == WithoutLineEndings(t[1..]);
      }
    }
  }

  /** Over all lines, whatever the widths, the text is conserved. */
  lemma {:induction false} AllTextConserved(s: string, lo: nat, hi: nat, width: Width, wrap: Wrap,
      perLine: seq<seq<Piece>>)
    requires lo <= hi <= |s| && |perLine| == |Lines(s, lo, hi)|
    requires forall i :: 0 <= i < |perLine| ==> LineOk(s, width, wrap, Lines(s, lo, hi)[i], perLine[i])
    ensures Conserves(s, lo, hi, wrap, Flat(perLine))
  {
    FlatConserved(s, width, wrap, Lines(s, lo, hi), perLine);
    LinesTile(s, lo, hi);
    TiledText(s, lo, hi, Lines(s, lo, hi));
    EndingsAreWhitespace(s[lo..hi]);
  }
}
