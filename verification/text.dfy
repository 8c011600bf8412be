/**
 * String primitives the extraction code relies on: Python's `str.strip()`,
 * `str.splitlines()`, `sep.join(parts)` and the whitespace collapse
 * `re.sub(r"[ \t]+", " ", line)`, together with the facts about them that the
 * normalisation proofs need.
 *
 * Abstraction: the only line terminator is '\n', and the characters `strip()`
 * removes are the six ASCII whitespace characters of `IsWhite`.
 */
module Text {

  import opened Wrappers

  /** Six of the characters `str.strip()` removes: space, tab, newline, carriage return,
      vertical tab and form feed. */
  predicate IsWhite(c: char)
  {
    c == ' ' || c == '\t' || c == '\n' || c == '\r' || c == '\U{000B}' || c == '\U{000C}'
  }

  /** The characters of the regular-expression class `[ \t]`. */
  predicate IsHSpace(c: char)
  {
    c == ' ' || c == '\t'
  }

  predicate AllWhite(s: string)
  {
    forall i :: 0 <= i < |s| ==> IsWhite(s[i])
  }

  predicate NoTab(s: string)
  {
    forall i :: 0 <= i < |s| ==> s[i] != '\t'
  }

  predicate NoNewline(s: string)
  {
    forall i :: 0 <= i < |s| ==> s[i] != '\n'
  }

  predicate AllNoNewline(ls: seq<string>)
  {
    forall i :: 0 <= i < |ls| ==> NoNewline(ls[i])
  }

  /** No two consecutive spaces. */
  predicate NoDoubleSpace(s: string)
  {
    forall i, j :: 0 <= i < |s| && j == i + 1 && j < |s| ==> s[i] != ' ' || s[j] != ' '
  }

  /** The non-white characters of `s`, in order: what normalisation must never change. */
  function Ink(s: string): string
  {
    if |s| == 0 then []
    else (if IsWhite(s[0]) then [] else [s[0]]) + Ink(s[1..])
  }

  lemma InkAppend(a: string, b: string)
    ensures Ink(a + b) == Ink(a) + Ink(b)
  {
    if |a| == 0 {
      assert a + b == b;
    } else {
      assert (a + b)[0] == a[0];
      assert (a + b)[1..] == a[1..] + b;
      InkAppend(a[1..], b);
    }
  }

  lemma InkEmptyIffWhite(s: string)
    ensures Ink(s) == [] <==> AllWhite(s)
  {
    if |s| > 0 {
      InkEmptyIffWhite(s[1..]);
      assert AllWhite(s) <==> IsWhite(s[0]) && AllWhite(s[1..]);
    }
  }

  // ---------------------------------------------------------------- strip

  function TrimLeft(s: string): string
  {
    if |s| > 0 && IsWhite(s[0]) then TrimLeft(s[1..]) else s
  }

  function TrimRight(s: string): string
  {
    if |s| > 0 && IsWhite(s[|s| - 1]) then TrimRight(s[..|s| - 1]) else s
  }

  /** `TrimLeft` drops the longest all-white prefix and nothing else. */
  lemma {:induction false} TrimLeftFacts(s: string)
    ensures var r := TrimLeft(s);
      && |r| <= |s| && r == s[|s| - |r|..]
      && (r == [] || !IsWhite(r[0]))
      && AllWhite(s[..|s| - |r|])
      && Ink(r) == Ink(s)
  {
    if |s| > 0 && IsWhite(s[0]) {
      TrimLeftFacts(s[1..]);
      var r := TrimLeft(s[1..]);
      assert s[..|s| - |r|] == [s[0]] + s[1..][..|s| - 1 - |r|];
    }
  }

  /** `TrimRight` drops the longest all-white suffix and nothing else. */
  lemma {:induction false} TrimRightFacts(s: string)
    ensures var r := TrimRight(s);
      && |r| <= |s| && r == s[..|r|]
      && (r == [] || !IsWhite(r[|r| - 1]))
      && AllWhite(s[|r|..])
      && Ink(r) == Ink(s)
  {
    if |s| > 0 && IsWhite(s[|s| - 1]) {
      var t := s[..|s| - 1];
      TrimRightFacts(t);
      var r := TrimRight(t);
      assert TrimRight(s) == r;
      InkAppend(t, [s[|s| - 1]]);
      assert s == t + [s[|s| - 1]];
      assert s[..|r|] == t[..|r|];
      assert s[|r|..] == t[|r|..] + [s[|s| - 1]];
    }
  }

  /** Python's `str.strip()`. */
  function Strip(s: string): string
  {
    TrimRight(TrimLeft(s))
  }

  lemma SliceKeepsCharFacts(s: string, a: nat, b: nat)
    requires a <= b <= |s|
    ensures NoTab(s) ==> NoTab(s[a..b])
    ensures NoNewline(s) ==> NoNewline(s[a..b])
    ensures NoDoubleSpace(s) ==> NoDoubleSpace(s[a..b])
  {
    assert forall i :: 0 <= i < b - a ==> s[a..b][i] == s[a + i];
  }

  /** `strip()` returns the slice of `s` left once a white prefix and a white suffix are cut
      off; the slice starts and ends with a non-white character (so both cuts are as long as
      they can be), is empty exactly when `s` is all white, keeps every non-white character
      of `s`, and keeps every property of single characters or adjacent pairs. */
  lemma StripFacts(s: string)
    ensures var r := Strip(s);
      exists a, b :: 0 <= a <= b <= |s| && r == s[a..b] && AllWhite(s[..a]) && AllWhite(s[b..])
    ensures var r := Strip(s);
      && |r| <= |s|
      && (r == [] || (!IsWhite(r[0]) && !IsWhite(r[|r| - 1])))
      && (r == [] <==> AllWhite(s))
      && Ink(r) == Ink(s)
      && (NoTab(s) ==> NoTab(r))
      && (NoNewline(s) ==> NoNewline(r))
      && (NoDoubleSpace(s) ==> NoDoubleSpace(r))
  {
    StripSlice(s);
    StripShape(s);
  }

  lemma StripSlice(s: string)
    ensures var r := Strip(s);
      exists a, b :: 0 <= a <= b <= |s| && r == s[a..b] && AllWhite(s[..a]) && AllWhite(s[b..])
  {
    var t := TrimLeft(s);
    TrimLeftFacts(s);
    var r := TrimRight(t);
    TrimRightFacts(t);
    var a := |s| - |t|;
    assert t == s[a..];
    assert r == s[a..a + |r|];
    assert s[a + |r|..] == t[|r|..];
  }

  lemma StripShape(s: string)
    ensures var r := Strip(s);
      && |r| <= |s|
      && (r == [] || (!IsWhite(r[0]) && !IsWhite(r[|r| - 1])))
      && (r == [] <==> AllWhite(s))
      && Ink(r) == Ink(s)
      && (NoTab(s) ==> NoTab(r))
      && (NoNewline(s) ==> NoNewline(r))
      && (NoDoubleSpace(s) ==> NoDoubleSpace(r))
  {
    var t := TrimLeft(s);
    TrimLeftFacts(s);
    SliceKeepsCharFacts(s, |s| - |t|, |s|);
    var r := TrimRight(t);
    TrimRightFacts(t);
    SliceKeepsCharFacts(t, 0, |r|);
    InkEmptyIffWhite(s);
    InkEmptyIffWhite(r);
  }

  lemma StripEmptyIffWhite(s: string)
    ensures Strip(s) == [] <==> AllWhite(s)
  {
    StripShape(s);
  }

  lemma StripFixed(s: string)
    requires s == [] || (!IsWhite(s[0]) && !IsWhite(s[|s| - 1]))
    ensures Strip(s) == s
  {
  }

  // ------------------------------------------------------------- collapse

  /** `re.sub(r"[ \t]+", " ", s)`: every maximal run of spaces and tabs becomes one space.
      `inRun` records that the character before `s` belonged to such a run. */
  function CollapseRuns(s: string, inRun: bool): string
  {
    if |s| == 0 then []
    else if IsHSpace(s[0]) then (if inRun then [] else " ") + CollapseRuns(s[1..], true)
    else [s[0]] + CollapseRuns(s[1..], false)
  }

  /** The collapsed text has no tab and no two spaces in a row; after a run it does not
      start with a space. */
  lemma {:induction false} CollapseShape(s: string, inRun: bool)
    ensures var r := CollapseRuns(s, inRun);
      && NoTab(r) && NoDoubleSpace(r) && (inRun ==> r == [] || r[0] != ' ')
  {
    if |s| > 0 {
      var head := if IsHSpace(s[0]) then (if inRun then [] else " ") else [s[0]];
      var rest := CollapseRuns(s[1..], IsHSpace(s[0]));
      CollapseShape(s[1..], IsHSpace(s[0]));
      var r := head + rest;
      assert CollapseRuns(s, inRun) == r;
      assert forall i :: |head| <= i < |r| ==> r[i] == rest[i - |head|];
    }
  }

  /** Collapsing introduces no newline. */
  lemma {:induction false} CollapseNoNewline(s: string, inRun: bool)
    requires NoNewline(s)
    ensures NoNewline(CollapseRuns(s, inRun))
  {
    if |s| > 0 {
      var head := if IsHSpace(s[0]) then (if inRun then [] else " ") else [s[0]];
      var rest := CollapseRuns(s[1..], IsHSpace(s[0]));
      assert NoNewline(s[1..]);
      CollapseNoNewline(s[1..], IsHSpace(s[0]));
      var r := head + rest;
      assert CollapseRuns(s, inRun) == r;
      assert forall i :: |head| <= i < |r| ==> r[i] == rest[i - |head|];
    }
  }

  /** Collapsing keeps every non-white character. */
  lemma {:induction false} CollapseInk(s: string, inRun: bool)
    ensures Ink(CollapseRuns(s, inRun)) == Ink(s)
  {
    if |s| > 0 {
      var head := if IsHSpace(s[0]) then (if inRun then [] else " ") else [s[0]];
      var rest := CollapseRuns(s[1..], IsHSpace(s[0]));
      CollapseInk(s[1..], IsHSpace(s[0]));
      assert CollapseRuns(s, inRun) == head + rest;
      InkAppend(head, rest);
      assert Ink(head) == Ink([s[0]]);
    }
  }

  lemma CollapseFacts(s: string, inRun: bool)
    ensures var r := CollapseRuns(s, inRun);
      && NoTab(r) && NoDoubleSpace(r)
      && (inRun ==> r == [] || r[0] != ' ')
      && (NoNewline(s) ==> NoNewline(r))
      && Ink(r) == Ink(s)
  {
    CollapseShape(s, inRun);
    CollapseInk(s, inRun);
    if NoNewline(s) {
      CollapseNoNewline(s, inRun);
    }
  }

  lemma {:induction false} CollapseFixed(s: string, inRun: bool)
    requires NoTab(s) && NoDoubleSpace(s)
    requires inRun ==> s == [] || s[0] != ' '
    ensures CollapseRuns(s, inRun) == s
  {
    if |s| > 0 {
      assert NoTab(s[1..]) && NoDoubleSpace(s[1..]);
      if s[0] == ' ' {
        assert |s| > 1 ==> s[1] != ' ';
        CollapseFixed(s[1..], true);
      } else {
        CollapseFixed(s[1..], false);
      }
    }
  }

  /** The words of `s`: its maximal runs of characters other than space and tab, in order. */
  function HWords(s: string): (r: seq<string>)
    ensures |s| > 0 && !IsHSpace(s[0]) ==> |r| >= 1
  {
    if |s| == 0 then []
    else
      var rest := HWords(s[1..]);
      if IsHSpace(s[0]) then rest
      else if |s| > 1 && !IsHSpace(s[1]) then [[s[0]] + rest[0]] + rest[1..]
      else [[s[0]]] + rest
  }

  /** No white character at all. */
  predicate NoWhite(s: string)
  {
    forall i :: 0 <= i < |s| ==> !IsWhite(s[i])
  }

  /** Every white character of `s` is a space or a tab. */
  predicate OnlyHSpaceWhite(s: string)
  {
    forall i :: 0 <= i < |s| ==> IsWhite(s[i]) ==> IsHSpace(s[i])
  }

  /** Words are non-empty and hold no space or tab; a string without words is all spaces and
      tabs; and when spaces and tabs are the only white characters, words hold none at all. */
  lemma {:induction false} HWordsShape(s: string)
    ensures forall j :: 0 <= j < |HWords(s)| ==>
      HWords(s)[j] != [] && forall k :: 0 <= k < |HWords(s)[j]| ==> !IsHSpace(HWords(s)[j][k])
    ensures HWords(s) == [] ==> forall i :: 0 <= i < |s| ==> IsHSpace(s[i])
    ensures OnlyHSpaceWhite(s) ==> forall j :: 0 <= j < |HWords(s)| ==> NoWhite(HWords(s)[j])
  {
    if |s| > 0 {
      var t := s[1..];
      HWordsShape(t);
      var rest := HWords(t);
      assert forall i :: 1 <= i < |s| ==> s[i] == t[i - 1];
      assert OnlyHSpaceWhite(s) ==> OnlyHSpaceWhite(t);
      if !IsHSpace(s[0]) {
        var r := HWords(s);
        if |s| > 1 && !IsHSpace(s[1]) {
          var w := [s[0]] + rest[0];
          assert r == [w] + rest[1..];
          assert forall k :: 1 <= k < |w| ==> w[k] == rest[0][k - 1];
          assert forall j :: 1 <= j < |r| ==> r[j] == rest[j];
        } else {
          assert r == [[s[0]]] + rest;
          assert forall j :: 1 <= j < |r| ==> r[j] == rest[j - 1];
        }
      }
    }
  }

  /** A space-join of non-empty words starts with the first word's first character and ends
      with the last word's last character. */
  lemma {:induction false} JoinWordsEnds(ws: seq<string>)
    requires |ws| >= 1
    requires forall j :: 0 <= j < |ws| ==> ws[j] != []
    ensures var r := Join(" ", ws);
      r != [] && r[0] == ws[0][0] && r[|r| - 1] == ws[|ws| - 1][|ws[|ws| - 1]| - 1]
  {
    if |ws| > 1 {
      JoinWordsEnds(ws[1..]);
      var rest := Join(" ", ws[1..]);
      assert Join(" ", ws) == ws[0] + (" " + rest);
    }
  }

  /** The space a collapse puts in front of the words of `s`. */
  function LeadSpace(s: string, inRun: bool): string
  {
    if !inRun && |s| > 0 && IsHSpace(s[0]) then " " else ""
  }

  /** The space a collapse puts behind the words of `s`. */
  function TrailSpace(s: string): string
  {
    if HWords(s) != [] && IsHSpace(s[|s| - 1]) then " " else ""
  }

  /** `re.sub(r"[ \t]+", " ", s)` is the words of `s` one space apart, with one space in front
      when `s` opens with a space or tab (and no run is already in progress) and one space
      behind when `s` has a word and closes with a space or tab. */
  lemma {:induction false} CollapseWords(s: string, inRun: bool)
    ensures CollapseRuns(s, inRun) == LeadSpace(s, inRun) + Join(" ", HWords(s)) + TrailSpace(s)
  {
    if |s| > 0 {
      var c, t := s[0], s[1..];
      if IsHSpace(c) {
        CollapseWords(t, true);
        CollapseHSpaceStep(s, inRun);
      } else {
        CollapseWords(t, false);
        HWordsShape(t);
        if |t| > 0 && !IsHSpace(t[0]) {
          CollapseWordStep(s, inRun);
        } else if |t| == 0 {
          assert HWords(s) == [[c]];
          assert CollapseRuns(s, inRun) == [c];
        } else {
          CollapseGapStep(s, inRun);
        }
      }
    }
  }

  lemma CollapseHSpaceStep(s: string, inRun: bool)
    requires |s| > 0 && IsHSpace(s[0])
    requires CollapseRuns(s[1..], true) == LeadSpace(s[1..], true) + Join(" ", HWords(s[1..])) + TrailSpace(s[1..])
    ensures CollapseRuns(s, inRun) == LeadSpace(s, inRun) + Join(" ", HWords(s)) + TrailSpace(s)
  {
    var t := s[1..];
    var lead, words, trail := LeadSpace(s, inRun), Join(" ", HWords(t)), TrailSpace(t);
    assert LeadSpace(t, true) == "";
    assert CollapseRuns(t, true) == words + trail by {
      assert "" + words == words;
    }
    assert CollapseRuns(s, inRun) == lead + (words + trail);
    assert lead + (words + trail) == lead + words + trail;
    assert HWords(s) == HWords(t);
    assert |t| > 0 ==> s[|s| - 1] == t[|t| - 1];
    assert TrailSpace(s) == trail;
  }

  lemma CollapseWordStep(s: string, inRun: bool)
    requires |s| > 1 && !IsHSpace(s[0]) && !IsHSpace(s[1])
    requires CollapseRuns(s[1..], false) == LeadSpace(s[1..], false) + Join(" ", HWords(s[1..])) + TrailSpace(s[1..])
    ensures CollapseRuns(s, inRun) == LeadSpace(s, inRun) + Join(" ", HWords(s)) + TrailSpace(s)
  {
    var c, t := s[0], s[1..];
    var w := HWords(t);
    assert t[0] == s[1];
    assert HWords(s) == [[c] + w[0]] + w[1..];
    JoinConsHead(" ", c, w);
    assert s[|s| - 1] == t[|t| - 1];
    assert TrailSpace(s) == TrailSpace(t);
    assert LeadSpace(t, false) == "";
    assert CollapseRuns(s, inRun) == [c] + CollapseRuns(t, false);
  }

  lemma CollapseGapStep(s: string, inRun: bool)
    requires |s| > 1 && !IsHSpace(s[0]) && IsHSpace(s[1])
    requires CollapseRuns(s[1..], false) == LeadSpace(s[1..], false) + Join(" ", HWords(s[1..])) + TrailSpace(s[1..])
    requires HWords(s[1..]) == [] ==> forall i :: 0 <= i < |s[1..]| ==> IsHSpace(s[1..][i])
    ensures CollapseRuns(s, inRun) == LeadSpace(s, inRun) + Join(" ", HWords(s)) + TrailSpace(s)
  {
    var c, t := s[0], s[1..];
    var w := HWords(t);
    assert t[0] == s[1];
    assert HWords(s) == [[c]] + w;
    assert s[|s| - 1] == t[|t| - 1];
    assert LeadSpace(t, false) == " ";
    assert CollapseRuns(s, inRun) == [c] + CollapseRuns(t, false);
    if w == [] {
      assert IsHSpace(t[|t| - 1]);
      assert TrailSpace(s) == " " && TrailSpace(t) == "";
      assert Join(" ", HWords(s)) == [c];
    } else {
      assert TrailSpace(s) == TrailSpace(t);
      assert ([[c]] + w)[1..] == w;
      assert Join(" ", HWords(s)) == [c] + " " + Join(" ", w);
    }
  }

  /** Cutting white characters off the front of `x + q` reaches into `q` only when `x` is all
      white. */
  lemma {:induction false} TrimLeftAppend(x: string, q: string)
    ensures TrimLeft(x + q) == if AllWhite(x) then TrimLeft(q) else TrimLeft(x) + q
  {
    if |x| == 0 {
      assert x + q == q;
    } else {
      assert (x + q)[0] == x[0];
      assert (x + q)[1..] == x[1..] + q;
      TrimLeftAppend(x[1..], q);
      assert AllWhite(x) <==> IsWhite(x[0]) && AllWhite(x[1..]);
    }
  }

  /** Cutting white characters off the back of `p + x` reaches into `p` only when `x` is all
      white. */
  lemma {:induction false} TrimRightPrepend(p: string, x: string)
    ensures TrimRight(p + x) == if AllWhite(x) then TrimRight(p) else p + TrimRight(x)
  {
    if |x| == 0 {
      assert p + x == p;
    } else {
      var x' := x[..|x| - 1];
      assert (p + x)[|p + x| - 1] == x[|x| - 1];
      assert (p + x)[..|p + x| - 1] == p + x';
      TrimRightPrepend(p, x');
      assert AllWhite(x) <==> IsWhite(x[|x| - 1]) && AllWhite(x');
    }
  }

  lemma TrimLeftAllWhite(s: string)
    requires AllWhite(s)
    ensures TrimLeft(s) == []
  {
    TrimLeftAppend(s, []);
    assert s + [] == s;
  }

  /** White padding on either side makes no difference to `strip()`. */
  lemma StripPad(p: string, x: string, q: string)
    requires AllWhite(p) && AllWhite(q)
    ensures Strip(p + x + q) == Strip(x)
  {
    assert p + x + q == p + (x + q);
    TrimLeftAppend(p, x + q);
    TrimLeftAppend(x, q);
    StripFacts(x);
    if AllWhite(x) {
      TrimLeftAllWhite(q);
    } else {
      TrimRightPrepend(TrimLeft(x), q);
    }
  }

  // ---------------------------------------------------------- split, join

  /** Python's `s.splitlines()` with '\n' as the only terminator, except that "" splits
      into [""] and a trailing '\n' yields a trailing "" (both vanish once blank lines are dropped). */
  function SplitLines(s: string): (r: seq<string>)
    ensures |r| >= 1
  {
    if |s| == 0 then [""]
    else
      var rest := SplitLines(s[1..]);
      if s[0] == '\n' then [""] + rest
      else
        [[s[0]] + rest[0]] + rest[1..]
  }

  /** Python's `sep.join(parts)`. */
  function Join(sep: string, parts: seq<string>): string
  {
    if |parts| == 0 then ""
    else if |parts| == 1 then parts[0]
    else parts[0] + sep + Join(sep, parts[1..])
  }

  /** Two newline-joined pieces, either of which may be missing. */
  function JoinNonEmpty(a: string, b: string): string
  {
    if a == [] then b else if b == [] then a else a + "\n" + b
  }

  /** No line contains the terminator. */
  lemma {:induction false} SplitLinesNoNewline(s: string)
    ensures AllNoNewline(SplitLines(s))
  {
    if |s| > 0 {
      SplitLinesNoNewline(s[1..]);
      var rest := SplitLines(s[1..]);
      if s[0] != '\n' {
        var first := [s[0]] + rest[0];
        assert NoNewline(rest[0]);
        assert forall i :: 1 <= i < |first| ==> first[i] == rest[0][i - 1];
      }
    }
  }

  /** Every white character of `s` is a space, a tab or a newline. */
  predicate PlainWhite(s: string)
  {
    forall i :: 0 <= i < |s| ==> IsWhite(s[i]) ==> IsHSpace(s[i]) || s[i] == '\n'
  }

  /** When the only white characters are spaces, tabs and newlines, every line has only spaces
      and tabs as white characters. */
  lemma {:induction false} SplitLinesPlain(s: string)
    requires PlainWhite(s)
    ensures forall j :: 0 <= j < |SplitLines(s)| ==> OnlyHSpaceWhite(SplitLines(s)[j])
  {
    SplitLinesNoNewline(s);
    if |s| > 0 {
      assert PlainWhite(s[1..]) by {
        assert forall i :: 0 <= i < |s| - 1 ==> s[1..][i] == s[i + 1];
      }
      SplitLinesPlain(s[1..]);
      var rest := SplitLines(s[1..]);
      if s[0] != '\n' {
        var first := [s[0]] + rest[0];
        assert forall i :: 1 <= i < |first| ==> first[i] == rest[0][i - 1];
        assert OnlyHSpaceWhite(first);
        var r := [first] + rest[1..];
        assert SplitLines(s) == r;
        assert forall j :: 1 <= j < |r| ==> r[j] == rest[j];
      }
    }
  }

  /** One step of `SplitLines`, stated for a string given as its head and tail. */
  lemma SplitLinesCons(c: char, t: string)
    ensures SplitLines([c] + t)
      == if c == '\n' then [""] + SplitLines(t)
         else [[c] + SplitLines(t)[0]] + SplitLines(t)[1..]
  {
    assert ([c] + t)[0] == c && ([c] + t)[1..] == t;
  }

  /** Prefixing a character to the first line commutes with appending more lines. */
  lemma PrefixFirstAppend(c: char, ra: seq<string>, rb: seq<string>)
    requires |ra| >= 1
    ensures [[c] + (ra + rb)[0]] + (ra + rb)[1..] == ([[c] + ra[0]] + ra[1..]) + rb
  {
    assert (ra + rb)[0] == ra[0];
    assert (ra + rb)[1..] == ra[1..] + rb;
  }

  lemma {:induction false} SplitLinesAppend(a: string, b: string)
    ensures SplitLines(a + "\n" + b) == SplitLines(a) + SplitLines(b)
  {
    if |a| == 0 {
      assert a + "\n" + b == ['\n'] + b;
      SplitLinesCons('\n', b);
    } else {
      var c, a' := a[0], a[1..];
      assert a + "\n" + b == [c] + (a' + "\n" + b);
      assert a == [c] + a';
      SplitLinesAppend(a', b);
      SplitLinesAppendStep(c, a', b);
    }
  }

  lemma SplitLinesAppendStep(c: char, a: string, b: string)
    requires SplitLines(a + "\n" + b) == SplitLines(a) + SplitLines(b)
    ensures SplitLines([c] + (a + "\n" + b)) == SplitLines([c] + a) + SplitLines(b)
  {
    var t := a + "\n" + b;
    var ra, rb := SplitLines(a), SplitLines(b);
    var rt := SplitLines(t);
    assert rt == ra + rb;
    SplitLinesCons(c, t);
    SplitLinesCons(c, a);
    if c != '\n' {
      PrefixFirstAppend(c, ra, rb);
      calc {
        SplitLines([c] + t);
        [[c] + rt[0]] + rt[1..];
        [[c] + (ra + rb)[0]] + (ra + rb)[1..];
        ([[c] + ra[0]] + ra[1..]) + rb;
        SplitLines([c] + a) + rb;
      }
    } else {
      calc {
        SplitLines([c] + t);
        [""] + rt;
        [""] + (ra + rb);
        ([""] + ra) + rb;
        SplitLines([c] + a) + rb;
      }
    }
  }

  lemma {:induction false} SplitLinesSingle(a: string)
    requires NoNewline(a)
    ensures SplitLines(a) == [a]
  {
    if |a| > 0 {
      SplitLinesSingle(a[1..]);
      assert [a[0]] + a[1..] == a;
    }
  }

  lemma {:induction false} JoinAppend(sep: string, xs: seq<string>, ys: seq<string>)
    requires |xs| >= 1 && |ys| >= 1
    ensures Join(sep, xs + ys) == Join(sep, xs) + sep + Join(sep, ys)
  {
    if |xs| > 1 {
      assert (xs + ys)[1..] == xs[1..] + ys;
      JoinAppend(sep, xs[1..], ys);
    }
  }

  /** Splitting a newline-join of newline-free lines gives the lines back. */
  lemma {:induction false} SplitJoin(ls: seq<string>)
    requires |ls| >= 1
    requires AllNoNewline(ls)
    ensures SplitLines(Join("\n", ls)) == ls
  {
    if |ls| == 1 {
      SplitLinesSingle(ls[0]);
    } else {
      SplitJoin(ls[1..]);
      SplitLinesAppend(ls[0], Join("\n", ls[1..]));
      SplitLinesSingle(ls[0]);
      assert ls == [ls[0]] + ls[1..];
    }
  }

  lemma JoinConsHead(sep: string, c: char, r: seq<string>)
    requires |r| >= 1
    ensures Join(sep, [[c] + r[0]] + r[1..]) == [c] + Join(sep, r)
  {
    var xs := [[c] + r[0]] + r[1..];
    if |r| > 1 {
      assert xs[1..] == r[1..];
    }
  }

  /** Joining the split lines of `s` with '\n' gives `s` back. */
  lemma {:induction false} JoinSplit(s: string)
    ensures Join("\n", SplitLines(s)) == s
  {
    if |s| > 0 {
      var rest := SplitLines(s[1..]);
      JoinSplit(s[1..]);
      if s[0] == '\n' {
        assert ([""] + rest)[1..] == rest;
        if |rest| == 1 {
          assert Join("\n", [""] + rest) == "" + "\n" + Join("\n", rest);
        }
        assert s == "\n" + s[1..];
      } else {
        JoinConsHead("\n", s[0], rest);
        assert s == [s[0]] + s[1..];
      }
    }
  }

  /** The non-white characters of every part, concatenated. */
  function InkAll(ls: seq<string>): string
  {
    if |ls| == 0 then [] else Ink(ls[0]) + InkAll(ls[1..])
  }

  lemma {:induction false} InkJoinLines(ls: seq<string>)
    ensures Ink(Join("\n", ls)) == InkAll(ls)
  {
    if |ls| == 1 {
      assert InkAll(ls[1..]) == [];
    } else if |ls| > 1 {
      InkJoinLines(ls[1..]);
      InkAppend(ls[0], "\n" + Join("\n", ls[1..]));
      InkAppend("\n", Join("\n", ls[1..]));
      assert Ink("\n") == [];
      assert ls[0] + "\n" + Join("\n", ls[1..]) == ls[0] + ("\n" + Join("\n", ls[1..]));
    }
  }

  // ----------------------------------------------------------- substrings

  predicate OccursAt(s: string, pat: string, i: nat)
  {
    i + |pat| <= |s| && s[i..i + |pat|] == pat
  }

  /** Python's `pat in s`. */
  predicate Contains(s: string, pat: string)
  {
    exists i: nat :: i <= |s| && OccursAt(s, pat, i)
  }

  /** Python's `s.find(pat)` from position `from` on, as an option. */
  function FindFrom(s: string, pat: string, from: nat): (r: Option<nat>)
    decreases |s| - from
    ensures r.Some? ==> from <= r.value && OccursAt(s, pat, r.value)
    ensures r.Some? ==> forall i: nat :: from <= i < r.value ==> !OccursAt(s, pat, i)
    ensures r.None? ==> forall i: nat :: from <= i ==> !OccursAt(s, pat, i)
  {
    if from + |pat| > |s| then None
    else if s[from..from + |pat|] == pat then Some(from)
    else FindFrom(s, pat, from + 1)
  }

  function Find(s: string, pat: string): (r: Option<nat>)
    ensures r.Some? <==> Contains(s, pat)
    ensures r.Some? ==> OccursAt(s, pat, r.value) && forall i: nat :: i < r.value ==> !OccursAt(s, pat, i)
  {
    FindFrom(s, pat, 0)
  }

  /** Python's `s.replace(a, b)` for single characters. */
  function ReplaceChar(s: string, a: char, b: char): (r: string)
    ensures |r| == |s|
    ensures forall i :: 0 <= i < |s| ==> r[i] == (if s[i] == a then b else s[i])
  {
    seq(|s|, i requires 0 <= i < |s| => if s[i] == a then b else s[i])
  }
}
