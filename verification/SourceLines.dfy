/** Splitting text into lines, as `str::lines` does for src/font.rs: the spans of the lines in the text. */
module SourceLines {
  datatype Span = Span(lo: nat, hi: nat)

  /** The first newline from `i` on, or the end. */
  function LineEnd(s: string, i: nat, hi: nat): (r: nat)
    requires i <= hi <= |s|
    ensures i <= r <= hi && (r < hi ==> s[r] == '\n') && forall k :: i <= k < r ==> s[k] != '\n'
    decreases hi - i
  {
    if i == hi || s[i] == '\n' then i else LineEnd(s, i + 1, hi)
  }

  /** `str::lines`: a carriage return before a newline belongs to the line ending; an empty last line is none. */
  function Lines(s: string, lo: nat, hi: nat): (r: seq<Span>)
    requires lo <= hi <= |s|
    ensures forall i :: 0 <= i < |r| ==> lo <= r[i].lo <= r[i].hi <= hi
    decreases hi - lo
  {
    var e := LineEnd(s, lo, hi);
    if e == hi then (if lo == hi then [] else [Span(lo, hi)])
    else [Span(lo, if e > lo && s[e - 1] == '\r' then e - 1 else e)] + Lines(s, e + 1, hi)
  }

  /** Text without newlines is one line, or none. */
  lemma {:induction false} OneLine(s: string, lo: nat, hi: nat)
    requires lo <= hi <= |s| && forall k :: lo <= k < hi ==> s[k] != '\n'
    ensures Lines(s, lo, hi) == if lo == hi then [] else [Span(lo, hi)]
  {
  }

  ghost predicate NoNewline(s: string, lo: nat, hi: nat) {
    forall k :: lo <= k < hi && k < |s| ==> s[k] != '\n'
  }

  lemma {:induction false} LineHasNoNewline(s: string, lo: nat, hi: nat, i: nat)
    requires lo <= hi <= |s| && i < |Lines(s, lo, hi)|
    ensures NoNewline(s, Lines(s, lo, hi)[i].lo, Lines(s, lo, hi)[i].hi)
    decreases hi - lo
  {
    var e := LineEnd(s, lo, hi);
    if e < hi && i > 0 {
      LineHasNoNewline(s, e + 1, hi, i - 1);
    }
  }

  // ----- what the lines are

  /** What follows the span up to `next` is a line ending, with the carriage return in front of the newline if any. */
  predicate EndsLine(s: string, line: Span, next: nat) {
    && line.lo <= line.hi < next <= |s|
    && if next == line.hi + 1 then s[line.hi] == '\n' && (line.lo < line.hi ==> s[line.hi - 1] != '\r')
       else next == line.hi + 2 && s[line.hi] == '\r' && s[line.hi + 1] == '\n'
  }

  /** Where the text goes on after the `i`th line and its ending. */
  function NextLine(lines: seq<Span>, i: nat, hi: nat): nat
    requires i < |lines|
  {
    if i + 1 < |lines| then lines[i + 1].lo else hi
  }

  /**
   The `i`th line holds no newline, and a line ending follows it; the last line may end the text without, if
   not empty.
   */
  ghost predicate LineTiled(s: string, hi: nat, lines: seq<Span>, i: nat)
    requires i < |lines|
  {
    var line, next := lines[i], NextLine(lines, i, hi);
    && line.lo <= line.hi <= next <= hi && NoNewline(s, line.lo, line.hi)
    && (EndsLine(s, line, next) || (i + 1 == |lines| && line.lo < line.hi == hi))
  }

  /** The lines and the line endings between them make up `s[lo..hi]`. */
  ghost predicate Tiled(s: string, lo: nat, hi: nat, lines: seq<Span>) {
    && (lines == [] ==> lo == hi) && (lines != [] ==> lines[0].lo == lo)
    && forall i {:trigger LineTiled(s, hi, lines, i)} :: 0 <= i < |lines| ==> LineTiled(s, hi, lines, i)
  }

  /** Splitting tiles the text. */
  lemma {:induction false} LinesTile(s: string, lo: nat, hi: nat)
    requires lo <= hi <= |s|
    ensures Tiled(s, lo, hi, Lines(s, lo, hi))
    decreases hi - lo
  {
    var lines := Lines(s, lo, hi);
    var e := LineEnd(s, lo, hi);
    if e < hi {
      var rest := Lines(s, e + 1, hi);
      LinesTile(s, e + 1, hi);
      forall i | 0 <= i < |lines|
        ensures LineTiled(s, hi, lines, i)
      {
        if i > 0 {
          assert LineTiled(s, hi, rest, i - 1) && rest[i - 1] == lines[i];
          assert NextLine(rest, i - 1, hi) == NextLine(lines, i, hi);
        } else {
          assert NextLine(lines, 0, hi) == e + 1;
        }
      }
    }
  }

  /** Nothing else does: however text is divided into lines and line endings, it is divided so. */
  lemma {:induction false} OneTiling(s: string, lo: nat, hi: nat, lines: seq<Span>)
    requires lo <= hi <= |s| && Tiled(s, lo, hi, lines)
    ensures lines == Lines(s, lo, hi)
    decreases hi - lo
  {
    if lines != [] {
      assert LineTiled(s, hi, lines, 0);
      var line, e := lines[0], LineEnd(s, lo, hi);
      if EndsLine(s, line, NextLine(lines, 0, hi)) {
        assert e == NextLine(lines, 0, hi) - 1;
        TailTiled(s, lo, hi, lines);
        OneTiling(s, e + 1, hi, lines[1..]);
        assert lines == [line] + lines[1..];
      } else {
        assert e == hi && lines == [line];
      }
    } else {
      assert LineEnd(s, lo, hi) == hi;
    }
  }

  lemma {:induction false} TailTiled(s: string, lo: nat, hi: nat, lines: seq<Span>)
    requires lo <= hi <= |s| && Tiled(s, lo, hi, lines) && lines != []
    ensures Tiled(s, NextLine(lines, 0, hi), hi, lines[1..])
  {
    var rest := lines[1..];
    forall i | 0 <= i < |rest|
      ensures LineTiled(s, hi, rest, i)
    {
      assert LineTiled(s, hi, lines, i + 1) && rest[i] == lines[i + 1];
      assert NextLine(rest, i, hi) == NextLine(lines, i + 1, hi);
    }
  }

  // ----- their text

  /** The text without its line endings. */
  function WithoutLineEndings(t: string): string {
    if t == "" then ""
    else if t[0] == '\n' then WithoutLineEndings(t[1..])
    else if t[0] == '\r' && |t| > 1 && t[1] == '\n' then WithoutLineEndings(t[2..])
    else [t[0]] + WithoutLineEndings(t[1..])
  }

  function LinesText(s: string, lines: seq<Span>): string
    requires forall i :: 0 <= i < |lines| ==> lines[i].lo <= lines[i].hi <= |s|
  {
    if lines == [] then "" else s[lines[0].lo..lines[0].hi] + LinesText(s, lines[1..])
  }

  lemma {:induction false} CharacterKept(s: string, lo: nat, hi: nat)
    requires lo < hi <= |s| && s[lo] != '\n' && !(s[lo] == '\r' && lo + 1 < hi && s[lo + 1] == '\n')
    ensures WithoutLineEndings(s[lo..hi]) == [s[lo]] + WithoutLineEndings(s[lo + 1..hi])
  {
    var t := s[lo..hi];
    assert t[1..] == s[lo + 1..hi] && t[0] == s[lo];
    assert |t| > 1 ==> t[1] == s[lo + 1];
  }

  lemma {:induction false} EndingDropped(s: string, at: nat, next: nat, hi: nat)
    requires EndsLine(s, Span(at, at), next) && next <= hi <= |s|
    ensures WithoutLineEndings(s[at..hi]) == WithoutLineEndings(s[next..hi])
  {
    var t := s[at..hi];
    if next == at + 1 {
      assert t[1..] == s[next..hi] && t[0] == s[at];
    } else {
      assert t[2..] == s[next..hi] && t[0] == s[at] && t[1] == s[at + 1];
    }
  }

  /** Up to the first line ending nothing is left out. */
  lemma {:induction false} LineKept(s: string, line: Span, next: nat, hi: nat)
    requires line.lo <= line.hi <= next <= hi <= |s| && NoNewline(s, line.lo, line.hi)
    requires EndsLine(s, line, next) || line.hi == next == hi
    ensures WithoutLineEndings(s[line.lo..hi]) == s[line.lo..line.hi] + WithoutLineEndings(s[next..hi])
    decreases line.hi - line.lo
  {
    hide WithoutLineEndings;
    var lo := line.lo;
    if lo < line.hi {
      CharacterKept(s, lo, hi);
      LineKept(s, Span(lo + 1, line.hi), next, hi);
      assert s[lo..line.hi] == [s[lo]] + s[lo + 1..line.hi];
    } else if EndsLine(s, line, next) {
      EndingDropped(s, lo, next, hi);
    }
  }

  /** Lines that tile the text are the text without its line endings. */
  lemma {:induction false} TiledText(s: string, lo: nat, hi: nat, lines: seq<Span>)
    requires lo <= hi <= |s| && Tiled(s, lo, hi, lines)
    requires forall i :: 0 <= i < |lines| ==> lines[i].lo <= lines[i].hi <= |s|
    ensures LinesText(s, lines) == WithoutLineEndings(s[lo..hi])
    decreases |lines|
  {
    if lines != [] {
      assert LineTiled(s, hi, lines, 0);
      var line, next := lines[0], NextLine(lines, 0, hi);
      TailTiled(s, lo, hi, lines);
      TiledText(s, next, hi, lines[1..]);
      LineKept(s, line, next, hi);
    }
  }
}
