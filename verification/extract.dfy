/**
 * `_extract_text`: render one typed content item (text, list, equation, code, image, or
 * anything else) as plain text, then normalise it.
 */
module Extract {

  import opened Wrappers
  import opened Text
  import opened Whitespace

  /** One entry of a paper's content list. A missing string field reads as "", a missing
      or null list as [], and `page_idx`/`text_level` are present only when they are integers;
      a float or boolean level (which Python would compare equal to 1) reads as absent. */
  datatype Item = Item(
    kind: Option<string>,
    text: string,
    listItems: seq<string>,
    codeCaption: seq<string>,
    codeBody: string,
    imageCaption: seq<string>,
    imageFootnote: seq<string>,
    pageIdx: Option<int>,
    textLevel: Option<int>)

  /** The pair `_extract_text` returns: the text, or None for "no usable text", and the type tag. */
  datatype Extracted = Extracted(text: Option<string>, kind: string)

  /** `item.get("type", "unknown")` */
  function ItemType(item: Item): string
  {
    item.kind.GetOr("unknown")
  }

  /** `[e.strip() for e in entries if e.strip()]`, the filter the list, code and image branches share. */
  function StrippedNonBlank(entries: seq<string>): seq<string>
  {
    if |entries| == 0 then []
    else
      var e := Strip(entries[0]);
      (if e == [] then [] else [e]) + StrippedNonBlank(entries[1..])
  }

  /** A stripped, non-empty entry. */
  predicate IsStrippedEntry(e: string)
  {
    e != [] && !IsWhite(e[0]) && !IsWhite(e[|e| - 1])
  }

  predicate AllStrippedEntries(es: seq<string>)
  {
    forall j :: 0 <= j < |es| ==> IsStrippedEntry(es[j])
  }

  /** Every kept entry is a stripped, non-empty entry of the input; newline-free input stays
      newline-free. */
  lemma {:induction false} StrippedNonBlankFacts(entries: seq<string>)
    ensures |StrippedNonBlank(entries)| <= |entries|
    ensures AllStrippedEntries(StrippedNonBlank(entries))
    ensures AllNoNewline(entries) ==> AllNoNewline(StrippedNonBlank(entries))
  {
    if |entries| > 0 {
      StrippedNonBlankFacts(entries[1..]);
      var e := Strip(entries[0]);
      var rest := StrippedNonBlank(entries[1..]);
      StripFacts(entries[0]);
      assert e != [] ==> IsStrippedEntry(e);
      assert AllNoNewline(entries) ==> NoNewline(entries[0]) && AllNoNewline(entries[1..]) by {
        if AllNoNewline(entries) {
          assert forall i :: 0 <= i < |entries| - 1 ==> entries[1..][i] == entries[i + 1];
        }
      }
      if e != [] {
        var r := [e] + rest;
        assert StrippedNonBlank(entries) == r;
        assert forall j :: 1 <= j < |r| ==> r[j] == rest[j - 1];
      } else {
        assert StrippedNonBlank(entries) == rest;
      }
    }
  }

  /** The positions from `from` on whose entry is not blank, in increasing order. */
  function NonBlankFrom(entries: seq<string>, from: nat): seq<nat>
    decreases |entries| - from
  {
    if from >= |entries| then []
    else (if AllWhite(entries[from]) then [] else [from]) + NonBlankFrom(entries, from + 1)
  }

  /** `r` holds, in increasing order of the positions `ix` (all at least `from`), the stripped
      entries that are not blank, and every non-blank entry from `from` on is among them. */
  ghost predicate PicksNonBlank(entries: seq<string>, from: nat, ix: seq<nat>, r: seq<string>)
  {
    && |ix| == |r|
    && (forall j :: 0 <= j < |ix| ==>
          from <= ix[j] < |entries| && !AllWhite(entries[ix[j]]) && r[j] == Strip(entries[ix[j]]))
    && (forall j, k :: 0 <= j < k < |ix| ==> ix[j] < ix[k])
    && (forall i :: from <= i < |entries| && !AllWhite(entries[i]) ==> i in ix)
  }

  lemma {:induction false} StrippedNonBlankPicksFrom(entries: seq<string>, from: nat)
    requires from <= |entries|
    ensures PicksNonBlank(entries, from, NonBlankFrom(entries, from), StrippedNonBlank(entries[from..]))
    decreases |entries| - from
  {
    if from < |entries| {
      StrippedNonBlankPicksFrom(entries, from + 1);
      var ix, r := NonBlankFrom(entries, from + 1), StrippedNonBlank(entries[from + 1..]);
      assert entries[from..][0] == entries[from];
      assert entries[from..][1..] == entries[from + 1..];
      var e := entries[from];
      StripEmptyIffWhite(e);
      assert StrippedNonBlank(entries[from..])
        == (if Strip(e) == [] then [] else [Strip(e)]) + StrippedNonBlank(entries[from + 1..]);
      if !AllWhite(e) {
        PicksNonBlankCons(entries, from, ix, r);
      }
    }
  }

  /** A non-blank entry at `from` joins the front of the picks from `from + 1` on. */
  lemma PicksNonBlankCons(entries: seq<string>, from: nat, ix: seq<nat>, r: seq<string>)
    requires from < |entries| && !AllWhite(entries[from])
    requires PicksNonBlank(entries, from + 1, ix, r)
    ensures PicksNonBlank(entries, from, [from] + ix, [Strip(entries[from])] + r)
  {
    var ix', r' := [from] + ix, [Strip(entries[from])] + r;
    forall j | 0 <= j < |ix'|
      ensures from <= ix'[j] < |entries| && !AllWhite(entries[ix'[j]]) && r'[j] == Strip(entries[ix'[j]])
    {
      if j > 0 {
        assert ix'[j] == ix[j - 1] && r'[j] == r[j - 1];
      }
    }
    forall j, k | 0 <= j < k < |ix'| ensures ix'[j] < ix'[k] {
      assert ix'[k] == ix[k - 1];
      if j > 0 {
        assert ix'[j] == ix[j - 1];
      }
    }
    forall i | from <= i < |entries| && !AllWhite(entries[i]) ensures i in ix' {
      if i > from {
        assert i in ix;
      }
    }
  }

  /** The kept entries are the stripped non-blank entries, in input order, none left out. */
  lemma StrippedNonBlankPicks(entries: seq<string>)
    ensures PicksNonBlank(entries, 0, NonBlankFrom(entries, 0), StrippedNonBlank(entries))
  {
    StrippedNonBlankPicksFrom(entries, 0);
    assert entries[0..] == entries;
  }

  lemma {:induction false} StrippedNonBlankAppend(xs: seq<string>, ys: seq<string>)
    ensures StrippedNonBlank(xs + ys) == StrippedNonBlank(xs) + StrippedNonBlank(ys)
  {
    if |xs| == 0 {
      assert xs + ys == ys;
    } else {
      assert (xs + ys)[0] == xs[0];
      assert (xs + ys)[1..] == xs[1..] + ys;
      StrippedNonBlankAppend(xs[1..], ys);
    }
  }

  /** A stripped list entry as a bullet line: kept when it already starts with '-' or '*',
      otherwise prefixed with "- ". */
  function Bullet(entry: string): string
  {
    if |entry| > 0 && (entry[0] == '-' || entry[0] == '*') then entry else "- " + entry
  }

  function Bullets(entries: seq<string>): (r: seq<string>)
    ensures |r| == |entries|
    ensures forall i :: 0 <= i < |r| ==> r[i] == Bullet(entries[i])
  {
    if |entries| == 0 then [] else [Bullet(entries[0])] + Bullets(entries[1..])
  }

  /** The raw text of a `list` item, before normalisation. */
  function ListRaw(entries: seq<string>): string
  {
    Join("\n", Bullets(StrippedNonBlank(entries)))
  }

  /** The raw text of a `code` item: the space-joined caption line if any caption is non-blank,
      then the body unless it is blank. */
  function CodeRaw(captions: seq<string>, body: string): string
  {
    var caps := StrippedNonBlank(captions);
    Join("\n", (if caps != [] then [Join(" ", caps)] else []) + (if !AllWhite(body) then [body] else []))
  }

  /** The raw text of an `image` item: its non-blank captions, then its non-blank footnotes. */
  function ImageRaw(captions: seq<string>, footnotes: seq<string>): string
  {
    Join("\n", StrippedNonBlank(captions + footnotes))
  }

  /** The text an item renders to before normalisation, by type tag. */
  function RawText(item: Item): string
  {
    var t := ItemType(item);
    if t == "text" then item.text
    else if t == "list" then ListRaw(item.listItems)
    else if t == "equation" then item.text
    else if t == "code" then CodeRaw(item.codeCaption, item.codeBody)
    else if t == "image" then ImageRaw(item.imageCaption, item.imageFootnote)
    else item.text
  }

  /** `_extract_text(item)`: the normalised raw rendering, or none when that is empty; the
      type tag is the item's `type`, or "unknown" when it has none. */
  function ExtractText(item: Item): Extracted
  {
    var text := Normalize(RawText(item));
    if text == [] then Extracted(None, ItemType(item)) else Extracted(Some(text), ItemType(item))
  }

  /** No text exactly when the raw rendering is all whitespace; otherwise the normalised raw
      rendering, which is non-empty and holds the raw rendering's non-white characters in order. */
  lemma ExtractTextFacts(item: Item)
    ensures var r := ExtractText(item);
      && r.kind == (if item.kind.Some? then item.kind.value else "unknown")
      && (r.text.None? <==> AllWhite(RawText(item)))
      && (r.text.Some? ==> r.text.value == Normalize(RawText(item)))
      && (r.text.Some? ==> r.text.value != [] && IsNormalized(r.text.value))
      && (r.text.Some? ==> Ink(r.text.value) == Ink(RawText(item)))
  {
  }

  /** The extracted text with "no text" read as "". */
  function TextOrEmpty(item: Item): string
  {
    ExtractText(item).text.GetOr("")
  }

  // ------------------------------------------------------------------ lists

  lemma CleanLineHead(l: string)
    requires l != [] && !IsWhite(l[0])
    ensures CleanLine(l) != [] && CleanLine(l)[0] == l[0]
  {
    var c := CollapseRuns(l, false);
    assert c[0] == l[0];
    assert !AllWhite(c);
    StripFacts(c);
    assert TrimLeft(c) == c;
    TrimRightFacts(c);
  }

  /** With no line all white, cleaning keeps every line. */
  lemma CleanLinesKeepsAll(ls: seq<string>)
    requires forall i :: 0 <= i < |ls| ==> !AllWhite(ls[i])
    ensures CleanLines(ls) == CleanEach(ls)
  {
    forall i | 0 <= i < |ls| ensures CleanEach(ls)[i] != [] {
      CleanLineFacts(ls[i]);
    }
    DropEmptyFixed(CleanEach(ls));
  }

  /** A bullet line of a non-empty, newline-free entry is newline-free and starts with '-' or '*'. */
  lemma BulletFacts(e: string)
    requires e != [] && NoNewline(e)
    ensures var b := Bullet(e);
      b != [] && (b[0] == '-' || b[0] == '*') && NoNewline(b)
  {
    var b := Bullet(e);
    if b != e {
      assert b == "- " + e;
      assert forall i :: 2 <= i < |b| ==> b[i] == e[i - 2];
    }
  }

  /** The bullet lines of non-empty, newline-free entries are newline-free and start with
      '-' or '*'. */
  lemma BulletsShape(nb: seq<string>)
    requires forall j :: 0 <= j < |nb| ==> nb[j] != []
    requires AllNoNewline(nb)
    ensures AllNoNewline(Bullets(nb))
    ensures forall j :: 0 <= j < |nb| ==>
      var b := Bullets(nb)[j];
      b != [] && !IsWhite(b[0]) && (b[0] == '-' || b[0] == '*')
  {
    var bs := Bullets(nb);
    forall j | 0 <= j < |nb|
      ensures NoNewline(bs[j]) && bs[j] != [] && (bs[j][0] == '-' || bs[j][0] == '*')
    {
      BulletFacts(nb[j]);
    }
  }

  /** A `list` item whose entries are single lines renders one line per non-blank entry, in
      order; each line is that entry's bullet, cleaned, and starts with '-' or '*'. With no
      non-blank entry there is no text. */
  lemma ListItemLines(item: Item)
    requires item.kind == Some("list")
    requires AllNoNewline(item.listItems)
    ensures var nb := StrippedNonBlank(item.listItems);
      && (ExtractText(item).text.None? <==> nb == [])
      && (ExtractText(item).text.Some? ==>
            var ls := SplitLines(ExtractText(item).text.value);
            && |ls| == |nb|
            && forall i :: 0 <= i < |ls| ==>
                 ls[i] == CleanLine(Bullet(nb[i])) && (ls[i][0] == '-' || ls[i][0] == '*'))
  {
    var nb := StrippedNonBlank(item.listItems);
    StrippedNonBlankFacts(item.listItems);
    var bs := Bullets(nb);
    BulletsShape(nb);
    assert RawText(item) == Join("\n", bs);
    if nb == [] {
      assert RawText(item) == "";
      assert AllWhite("");
    } else {
      BulletLinesNormalize(bs);
    }
  }

  /** Bullet lines survive normalisation one for one, each still opening with its marker. */
  lemma BulletLinesNormalize(bs: seq<string>)
    requires |bs| > 0 && AllNoNewline(bs)
    requires forall j :: 0 <= j < |bs| ==> bs[j] != [] && !IsWhite(bs[j][0]) && (bs[j][0] == '-' || bs[j][0] == '*')
    ensures var cl := CleanEach(bs);
      && Normalize(Join("\n", bs)) == Join("\n", cl)
      && Join("\n", cl) != []
      && SplitLines(Join("\n", cl)) == cl
      && forall i :: 0 <= i < |cl| ==> cl[i][0] == bs[i][0]
  {
    assert forall j :: 0 <= j < |bs| ==> !AllWhite(bs[j]);
    SplitJoin(bs);
    CleanLinesKeepsAll(bs);
    var cl := CleanEach(bs);
    forall i | 0 <= i < |cl| ensures cl[i] != [] && cl[i][0] == bs[i][0] {
      CleanLineHead(bs[i]);
    }
    CleanLinesClean(bs);
    assert AllNoNewline(cl);
    SplitJoin(cl);
    CleanLinesNoneWhite(bs);
    JoinOfInkedLines(cl);
  }

  // ------------------------------------------------------------ code, image

  /** Normalising a newline-join of pieces normalises the pieces one by one. */
  lemma NormalizeJoinTwo(xs: seq<string>, ys: seq<string>)
    ensures Normalize(Join("\n", xs + ys)) == JoinNonEmpty(Normalize(Join("\n", xs)), Normalize(Join("\n", ys)))
  {
    if xs == [] {
      assert xs + ys == ys;
      assert AllWhite("");
    } else if ys == [] {
      assert xs + ys == xs;
      assert AllWhite("");
    } else {
      JoinAppend("\n", xs, ys);
      NormalizeConcat(Join("\n", xs), Join("\n", ys));
    }
  }

  /** A `code` item renders as its normalised caption line followed by its normalised body;
      a blank caption list or a blank body contributes nothing. */
  lemma CodeItemText(item: Item)
    requires item.kind == Some("code")
    ensures var caps := StrippedNonBlank(item.codeCaption);
      TextOrEmpty(item) == JoinNonEmpty(
        Normalize(Join(" ", caps)),
        if AllWhite(item.codeBody) then "" else Normalize(item.codeBody))
  {
    var caps := StrippedNonBlank(item.codeCaption);
    var first: seq<string> := if caps != [] then [Join(" ", caps)] else [];
    var second: seq<string> := if !AllWhite(item.codeBody) then [item.codeBody] else [];
    assert RawText(item) == Join("\n", first + second);
    NormalizeJoinTwo(first, second);
    assert AllWhite("");
  }

  /** An `image` item renders as the rendering of its captions alone followed by the rendering
      of its footnotes alone. */
  lemma ImageItemText(item: Item)
    requires item.kind == Some("image")
    ensures TextOrEmpty(item) == JoinNonEmpty(
      TextOrEmpty(item.(imageFootnote := [])),
      TextOrEmpty(item.(imageCaption := [])))
  {
    var c, f := item.imageCaption, item.imageFootnote;
    StrippedNonBlankAppend(c, f);
    assert c + [] == c;
    assert [] + f == f;
    NormalizeJoinTwo(StrippedNonBlank(c), StrippedNonBlank(f));
    assert AllWhite("");
  }

  /** A blank code body is the same as no body at all. */
  lemma CodeBlankBodyOmitted(item: Item)
    requires item.kind == Some("code") && AllWhite(item.codeBody)
    ensures ExtractText(item) == ExtractText(item.(codeBody := ""))
  {
  }
}
