/**
 * `_normalize_whitespace`: split into lines, collapse every run of spaces and tabs to one
 * space, strip each line, drop the lines that become empty, and join the rest with '\n'.
 */
module Whitespace {

  import opened Text

  /** A line as normalisation leaves it: non-empty, no newline, no tab, no two spaces in a
      row, and no white character at either end. */
  predicate IsCleanLine(l: string)
  {
    && l != []
    && NoNewline(l) && NoTab(l) && NoDoubleSpace(l)
    && !IsWhite(l[0]) && !IsWhite(l[|l| - 1])
  }

  predicate AllClean(ls: seq<string>)
  {
    forall i :: 0 <= i < |ls| ==> IsCleanLine(ls[i])
  }

  /** No line is all white. */
  predicate NoneWhite(ls: seq<string>)
  {
    forall i :: 0 <= i < |ls| ==> !AllWhite(ls[i])
  }

  /** A text as normalisation leaves it: empty, or every one of its lines is clean. */
  predicate IsNormalized(t: string)
  {
    t == [] || AllClean(SplitLines(t))
  }

  /** `re.sub(r"[ \t]+", " ", line).strip()` */
  function CleanLine(line: string): string
  {
    Strip(CollapseRuns(line, false))
  }

  /** A cleaned line keeps the non-white characters of the line, is empty exactly when the
      line is all white, and otherwise is clean. */
  lemma CleanLineFacts(line: string)
    ensures Ink(CleanLine(line)) == Ink(line)
    ensures CleanLine(line) == [] <==> AllWhite(line)
    ensures CleanLine(line) == [] || !AllWhite(CleanLine(line))
    ensures NoNewline(line) && CleanLine(line) != [] ==> IsCleanLine(CleanLine(line))
  {
    var c := CollapseRuns(line, false);
    CollapseFacts(line, false);
    StripFacts(c);
    InkEmptyIffWhite(line);
    InkEmptyIffWhite(c);
  }

  /** A cleaned line is the line's words one space apart, stripped of any other white
      character at its ends; a line whose only white characters are spaces and tabs becomes
      exactly its words one space apart. */
  lemma CleanLineWords(line: string)
    ensures CleanLine(line) == Strip(Join(" ", HWords(line)))
    ensures OnlyHSpaceWhite(line) ==> CleanLine(line) == Join(" ", HWords(line))
  {
    var w := HWords(line);
    CollapseWords(line, false);
    assert AllWhite(LeadSpace(line, false)) && AllWhite(TrailSpace(line));
    StripPad(LeadSpace(line, false), Join(" ", w), TrailSpace(line));
    if OnlyHSpaceWhite(line) && w != [] {
      HWordsShape(line);
      JoinWordsEnds(w);
      StripFixed(Join(" ", w));
    }
  }

  /** Each line as its words one space apart, the lines without a word dropped. */
  function WordLines(ls: seq<string>): seq<string>
  {
    if |ls| == 0 then []
    else (if HWords(ls[0]) == [] then [] else [Join(" ", HWords(ls[0]))]) + WordLines(ls[1..])
  }

  /** For lines whose only white characters are spaces and tabs, cleaning is `WordLines`. */
  lemma {:induction false} CleanLinesWords(ls: seq<string>)
    requires forall i :: 0 <= i < |ls| ==> OnlyHSpaceWhite(ls[i])
    ensures CleanLines(ls) == WordLines(ls)
  {
    if |ls| > 0 {
      CleanLinesWords(ls[1..]);
      CleanEachTail(ls);
      CleanLineWords(ls[0]);
      var w := HWords(ls[0]);
      if w != [] {
        HWordsShape(ls[0]);
        JoinWordsEnds(w);
      }
      var cs := CleanEach(ls);
      assert DropEmpty(cs) == (if cs[0] == [] then [] else [cs[0]]) + DropEmpty(cs[1..]);
    }
  }

  lemma CleanLineFixed(l: string)
    requires IsCleanLine(l)
    ensures CleanLine(l) == l
  {
    CollapseFixed(l, false);
    StripFixed(l);
  }

  /** Every line cleaned, none dropped yet. */
  function CleanEach(ls: seq<string>): (r: seq<string>)
    ensures |r| == |ls|
    ensures forall i :: 0 <= i < |ls| ==> r[i] == CleanLine(ls[i])
  {
    seq(|ls|, i requires 0 <= i < |ls| => CleanLine(ls[i]))
  }

  /** The `if cleaned:` filter. */
  function DropEmpty(ls: seq<string>): seq<string>
  {
    if |ls| == 0 then [] else (if ls[0] == [] then [] else [ls[0]]) + DropEmpty(ls[1..])
  }

  /** The loop of `_normalize_whitespace`: clean every line, keep the non-empty ones. */
  function CleanLines(ls: seq<string>): seq<string>
  {
    DropEmpty(CleanEach(ls))
  }

  lemma {:induction false} DropEmptyAppend(xs: seq<string>, ys: seq<string>)
    ensures DropEmpty(xs + ys) == DropEmpty(xs) + DropEmpty(ys)
  {
    if |xs| == 0 {
      assert xs + ys == ys;
    } else {
      assert (xs + ys)[0] == xs[0];
      assert (xs + ys)[1..] == xs[1..] + ys;
      DropEmptyAppend(xs[1..], ys);
    }
  }

  /** Dropping nothing when nothing is empty. */
  lemma {:induction false} DropEmptyFixed(ls: seq<string>)
    requires forall i :: 0 <= i < |ls| ==> ls[i] != []
    ensures DropEmpty(ls) == ls
  {
    if |ls| > 0 {
      DropEmptyFixed(ls[1..]);
      assert ls == [ls[0]] + ls[1..];
    }
  }

  /** Every kept line is one of the input lines. */
  lemma {:induction false} DropEmptyFrom(ls: seq<string>)
    ensures forall j :: 0 <= j < |DropEmpty(ls)| ==> DropEmpty(ls)[j] != [] && DropEmpty(ls)[j] in ls
  {
    if |ls| > 0 {
      DropEmptyFrom(ls[1..]);
      var rest := DropEmpty(ls[1..]);
      assert forall x :: x in rest ==> x in ls;
      if ls[0] != [] {
        var r := [ls[0]] + rest;
        assert forall j :: 1 <= j < |r| ==> r[j] == rest[j - 1];
      }
    }
  }

  lemma {:induction false} DropEmptyInk(ls: seq<string>)
    ensures InkAll(DropEmpty(ls)) == InkAll(ls)
  {
    if |ls| > 0 {
      DropEmptyInk(ls[1..]);
      var rest := DropEmpty(ls[1..]);
      assert InkAll(ls) == Ink(ls[0]) + InkAll(ls[1..]);
      if ls[0] == [] {
        assert Ink(ls[0]) == [];
        assert DropEmpty(ls) == rest;
      } else {
        var r := [ls[0]] + rest;
        assert r[0] == ls[0] && r[1..] == rest;
      }
    }
  }

  lemma CleanEachTail(ls: seq<string>)
    requires |ls| > 0
    ensures CleanEach(ls)[1..] == CleanEach(ls[1..])
  {
    assert forall i :: 0 <= i < |ls| - 1 ==> ls[1..][i] == ls[i + 1];
  }

  lemma {:induction false} CleanEachInk(ls: seq<string>)
    ensures InkAll(CleanEach(ls)) == InkAll(ls)
  {
    if |ls| > 0 {
      var cs := CleanEach(ls);
      CleanEachInk(ls[1..]);
      CleanEachTail(ls);
      CleanLineFacts(ls[0]);
      assert InkAll(cs) == Ink(cs[0]) + InkAll(cs[1..]);
    }
  }

  /** No kept line is all white. */
  lemma CleanLinesNoneWhite(ls: seq<string>)
    ensures NoneWhite(CleanLines(ls))
  {
    var cs := CleanEach(ls);
    DropEmptyFrom(cs);
    forall x | x in cs && x != [] ensures !AllWhite(x) {
      var i :| 0 <= i < |cs| && cs[i] == x;
      CleanLineFacts(ls[i]);
    }
  }

  /** Every kept line of newline-free input is clean. */
  lemma CleanLinesClean(ls: seq<string>)
    requires AllNoNewline(ls)
    ensures AllClean(CleanLines(ls))
  {
    var cs := CleanEach(ls);
    DropEmptyFrom(cs);
    forall x | x in cs && x != [] ensures IsCleanLine(x) {
      var i :| 0 <= i < |cs| && cs[i] == x;
      CleanLineFacts(ls[i]);
    }
  }

  /** Cleaning keeps every non-white character, in order. */
  lemma CleanLinesInk(ls: seq<string>)
    ensures InkAll(CleanLines(ls)) == InkAll(ls)
  {
    CleanEachInk(ls);
    DropEmptyInk(CleanEach(ls));
  }

  lemma CleanLinesAppend(xs: seq<string>, ys: seq<string>)
    ensures CleanLines(xs + ys) == CleanLines(xs) + CleanLines(ys)
  {
    assert CleanEach(xs + ys) == CleanEach(xs) + CleanEach(ys);
    DropEmptyAppend(CleanEach(xs), CleanEach(ys));
  }

  /** Clean lines are left alone. */
  lemma CleanLinesFixed(ls: seq<string>)
    requires AllClean(ls)
    ensures CleanLines(ls) == ls
  {
    forall i | 0 <= i < |ls| ensures CleanLine(ls[i]) == ls[i] {
      CleanLineFixed(ls[i]);
    }
    assert CleanEach(ls) == ls;
    DropEmptyFixed(ls);
  }

  /** A join of lines none of which is all white is empty exactly when there are no lines. */
  lemma JoinOfInkedLines(ls: seq<string>)
    requires NoneWhite(ls)
    ensures Join("\n", ls) == [] <==> ls == []
    ensures Ink(Join("\n", ls)) == [] <==> ls == []
  {
    if ls != [] {
      InkJoinLines(ls);
      InkEmptyIffWhite(ls[0]);
      assert InkAll(ls) == Ink(ls[0]) + InkAll(ls[1..]);
      assert Ink(Join("\n", ls)) != [];
    }
  }

  /** The newline-join of clean lines is normalised. */
  lemma JoinCleanIsNormalized(lines: seq<string>)
    requires AllClean(lines)
    ensures IsNormalized(Join("\n", lines))
  {
    if |lines| >= 1 {
      SplitJoin(lines);
    }
  }

  lemma JoinCleanKeepsInk(t: string)
    ensures Ink(Join("\n", CleanLines(SplitLines(t)))) == Ink(t)
  {
    InkJoinLines(CleanLines(SplitLines(t)));
    CleanLinesInk(SplitLines(t));
    InkJoinLines(SplitLines(t));
    JoinSplit(t);
  }

  /** `_normalize_whitespace(t)`: the result is normalised, is empty exactly when `t` is all
      whitespace, and keeps every non-white character of `t` in order. */
  function Normalize(t: string): (r: string)
    ensures IsNormalized(r)
    ensures r == [] <==> AllWhite(t)
    ensures Ink(r) == Ink(t)
  {
    var lines := CleanLines(SplitLines(t));
    SplitLinesNoNewline(t);
    CleanLinesClean(SplitLines(t));
    CleanLinesNoneWhite(SplitLines(t));
    JoinCleanIsNormalized(lines);
    JoinCleanKeepsInk(t);
    JoinOfInkedLines(lines);
    InkEmptyIffWhite(t);
    Join("\n", lines)
  }

  /** A text whose only white characters are spaces, tabs and newlines normalises to its lines,
      each as its words one space apart, with the lines that have no word dropped. */
  lemma NormalizeWords(t: string)
    requires PlainWhite(t)
    ensures Normalize(t) == Join("\n", WordLines(SplitLines(t)))
  {
    SplitLinesPlain(t);
    CleanLinesWords(SplitLines(t));
  }

  /** A normalised text is a fixed point of normalisation. */
  lemma {:induction false} NormalizeFixed(t: string)
    requires IsNormalized(t)
    ensures Normalize(t) == t
  {
    if t == [] {
      assert SplitLines(t) == [""];
      assert CleanLines([""]) == [];
    } else {
      CleanLinesFixed(SplitLines(t));
      JoinSplit(t);
    }
  }

  /** Normalising twice is normalising once. */
  lemma NormalizeIdempotent(t: string)
    ensures Normalize(Normalize(t)) == Normalize(t)
  {
    NormalizeFixed(Normalize(t));
  }

  /** Cleaning and joining two blocks of lines handles each block on its own. */
  lemma JoinCleanConcat(xs: seq<string>, ys: seq<string>)
    ensures Join("\n", CleanLines(xs + ys))
         == JoinNonEmpty(Join("\n", CleanLines(xs)), Join("\n", CleanLines(ys)))
  {
    CleanLinesAppend(xs, ys);
    var cx, cy := CleanLines(xs), CleanLines(ys);
    CleanLinesNoneWhite(xs);
    CleanLinesNoneWhite(ys);
    JoinOfInkedLines(cx);
    JoinOfInkedLines(cy);
    if cx == [] {
      assert cx + cy == cy;
    } else if cy == [] {
      assert cx + cy == cx;
    } else {
      JoinAppend("\n", cx, cy);
    }
  }

  /** Normalising two newline-separated pieces normalises each piece on its own; a piece that
      normalises to nothing leaves no trace. */
  lemma NormalizeConcat(a: string, b: string)
    ensures Normalize(a + "\n" + b) == JoinNonEmpty(Normalize(a), Normalize(b))
  {
    SplitLinesAppend(a, b);
    JoinCleanConcat(SplitLines(a), SplitLines(b));
  }
}
