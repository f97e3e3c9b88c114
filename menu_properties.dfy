/**
 * What the walk of `renderStructuredMenu` promises, stated over the lines it
 * reads: which lines open sections, where items and addons go, what a blank
 * input gives, and what the pre-processing keeps.
 */
module MenuProperties {
  import opened Options
  import opened MenuText
  import opened MenuParser

  // ---------------------------------------------------------------------
  // One line at a time

  /** A header line opens a section titled with exactly that line and clears the current item. */
  lemma HeaderStep(st: ParseState, line: string)
    requires Valid(st) && Classify(line, st.prevBlank) == Header
    ensures line != [] && st.prevBlank && '-' !in line && !IsPriceLine(line) && !IsAddonLine(line)
    ensures Step(st, line).sections == st.sections + [Section(line, [])]
    ensures !Step(st, line).hasItem
  {
  }

  /**
   * An addon line goes to the last item created since the current section
   * opened, without its leading hyphens and whitespace; with no such item it
   * is dropped and nothing but `prevBlank` changes.
   */
  lemma AddonStep(st: ParseState, line: string)
    requires Valid(st) && Classify(line, st.prevBlank) == Addon
    ensures var r := Step(st, line);
      && r.hasItem == st.hasItem && !r.prevBlank
      && |r.sections| == |st.sections|
      && (|st.sections| > 0 ==> r.sections[..|r.sections| - 1] == st.sections[..|st.sections| - 1])
    ensures !st.hasItem ==> Step(st, line) == st.(prevBlank := false)
    ensures st.hasItem ==>
      var last, last' := st.sections[|st.sections| - 1], Step(st, line).sections[|st.sections| - 1];
      var n := |last.items|;
      && last'.title == last.title && |last'.items| == n
      && last'.items[..n - 1] == last.items[..n - 1]
      && last'.items[n - 1] == last.items[n - 1].(addons := last.items[n - 1].addons + [AddonText(line)])
  {
  }

  /**
   * An item line goes to the current section; before any section exists a
   * section titled `Meny` is made for it. It becomes the current item.
   */
  lemma ItemStep(st: ParseState, line: string)
    requires Valid(st) && Classify(line, st.prevBlank) == ItemLine
    ensures Step(st, line).hasItem && !Step(st, line).prevBlank
    ensures |st.sections| == 0 ==> Step(st, line).sections == [Section(DefaultTitle, [SplitItem(line)])]
    ensures |st.sections| > 0 ==>
      var r := Step(st, line).sections;
      && |r| == |st.sections| && r[..|r| - 1] == st.sections[..|r| - 1]
      && r[|r| - 1] == st.sections[|r| - 1].(items := st.sections[|r| - 1].items + [SplitItem(line)])
  {
    StepOfItem(st, line);
    ItemTargetShape(st.sections, SplitItem(line));
  }

  lemma StepOfItem(st: ParseState, line: string)
    requires Valid(st) && Classify(line, st.prevBlank) == ItemLine
    ensures Step(st, line)
      == ParseState(AppendItem(if |st.sections| == 0 then OpenSection([], DefaultTitle) else st.sections, SplitItem(line)), true, false)
  {
  }

  /** Where an item goes: the last section, or a new `Meny` section when there is none. */
  lemma ItemTargetShape(sections: Menu, it: Item)
    ensures var r := AppendItem(if |sections| == 0 then OpenSection([], DefaultTitle) else sections, it);
      && (|sections| == 0 ==> r == [Section(DefaultTitle, [it])])
      && (|sections| > 0 ==>
        && |r| == |sections| && r[..|r| - 1] == sections[..|r| - 1]
        && r[|r| - 1] == sections[|r| - 1].(items := sections[|r| - 1].items + [it]))
  {
    if |sections| > 0 {
      var r := AppendItem(sections, it);
      assert r[|r| - 1].title == sections[|r| - 1].title;
    } else {
      var r := AppendItem(OpenSection([], DefaultTitle), it);
      assert r[0].items == [it];
      assert r[0] == Section(DefaultTitle, [it]);
    }
  }

  // ---------------------------------------------------------------------
  // Which lines open sections

  /** `prevBlank` when line `i` is read: line `i` is the first or follows a blank line. */
  predicate AfterBlank(lines: seq<string>, i: nat)
    requires i <= |lines|
  {
    i == 0 || lines[i - 1] == []
  }

  /** Line `i` is a header: non-empty, first or after a blank line, no hyphen, no price, not an addon. */
  predicate IsHeaderAt(lines: seq<string>, i: nat)
    requires i < |lines|
  {
    AfterBlank(lines, i) && LooksLikeHeader(lines[i])
  }

  /** Line `i` is read as an item. */
  predicate IsItemAt(lines: seq<string>, i: nat)
    requires i < |lines|
  {
    lines[i] != [] && !IsHeaderAt(lines, i) && !IsAddonLine(lines[i])
  }

  /** The header lines among the first `n`, in order. */
  function HeadersBefore(lines: seq<string>, n: nat): seq<string>
    requires n <= |lines|
  {
    if n == 0 then []
    else HeadersBefore(lines, n - 1) + (if IsHeaderAt(lines, n - 1) then [lines[n - 1]] else [])
  }

  /** Some item line among the first `n` comes before every header line. */
  ghost predicate ItemBeforeHeaders(lines: seq<string>, n: nat)
    requires n <= |lines|
  {
    exists j :: 0 <= j < n && IsItemAt(lines, j) && forall h :: 0 <= h < j ==> !IsHeaderAt(lines, h)
  }

  function Titles(m: Menu): (r: seq<string>)
    ensures |r| == |m| && forall k :: 0 <= k < |m| ==> r[k] == m[k].title
  {
    seq(|m|, k requires 0 <= k < |m| => m[k].title)
  }

  /** The state `Walk` reaches after the first `n` lines. */
  function WalkPrefix(lines: seq<string>, n: nat): ParseState
    requires n <= |lines|
  {
    Walk(Start, lines[..n])
  }

  lemma WalkPrefixStep(lines: seq<string>, n: nat)
    requires n < |lines|
    ensures WalkPrefix(lines, n + 1) == Step(WalkPrefix(lines, n), lines[n])
  {
    assert lines[..n + 1] == lines[..n] + [lines[n]];
    WalkAppend(Start, lines[..n], [lines[n]]);
    assert Walk(WalkPrefix(lines, n), [lines[n]]) == Step(WalkPrefix(lines, n), lines[n]);
  }

  lemma TitlesSame(a: Menu, b: Menu)
    requires |a| == |b| > 0 && a[..|a| - 1] == b[..|b| - 1] && a[|a| - 1].title == b[|b| - 1].title
    ensures Titles(a) == Titles(b)
  {
    forall k | 0 <= k < |a| - 1 ensures a[k] == b[k] {
      assert a[k] == a[..|a| - 1][k];
    }
  }

  /** How one line changes the titles. */
  lemma TitlesStep(st: ParseState, line: string)
    requires Valid(st)
    ensures var k, r := Classify(line, st.prevBlank), Step(st, line).sections;
      && (k == Header ==> Titles(r) == Titles(st.sections) + [line])
      && (k == ItemLine && |st.sections| == 0 ==> Titles(r) == [DefaultTitle])
      && (k == ItemLine && |st.sections| > 0 ==> Titles(r) == Titles(st.sections))
      && (k == Addon || k == Blank ==> Titles(r) == Titles(st.sections))
      && (|r| == 0 <==> |st.sections| == 0 && (k == Addon || k == Blank))
  {
    var k := Classify(line, st.prevBlank);
    if k == Header {
      TitlesOfHeader(st, line);
    } else if k == ItemLine {
      TitlesOfItem(st, line);
    } else {
      TitlesOfOther(st, line);
    }
  }

  lemma TitlesOfHeader(st: ParseState, line: string)
    requires Valid(st) && Classify(line, st.prevBlank) == Header
    ensures var r := Step(st, line).sections; Titles(r) == Titles(st.sections) + [line] && |r| > 0
  {
    HeaderStep(st, line);
  }

  lemma TitlesOfItem(st: ParseState, line: string)
    requires Valid(st) && Classify(line, st.prevBlank) == ItemLine
    ensures var r := Step(st, line).sections;
      && (|st.sections| == 0 ==> Titles(r) == [DefaultTitle])
      && (|st.sections| > 0 ==> Titles(r) == Titles(st.sections))
      && |r| > 0
  {
    ItemStep(st, line);
    if |st.sections| > 0 {
      TitlesSame(Step(st, line).sections, st.sections);
    }
  }

  lemma TitlesOfOther(st: ParseState, line: string)
    requires Valid(st) && (Classify(line, st.prevBlank) == Addon || Classify(line, st.prevBlank) == Blank)
    ensures var r := Step(st, line).sections; Titles(r) == Titles(st.sections) && |r| == |st.sections|
  {
    if Classify(line, st.prevBlank) == Addon {
      AddonStep(st, line);
      if st.hasItem {
        TitlesSame(Step(st, line).sections, st.sections);
      }
    }
  }

  /** An item line before every header appears among the first `i + 1` lines when it does among the first `i`, or line `i` is one. */
  lemma ItemBeforeHeadersStep(lines: seq<string>, i: nat)
    requires i < |lines|
    ensures ItemBeforeHeaders(lines, i + 1) <==>
      ItemBeforeHeaders(lines, i) || (IsItemAt(lines, i) && forall h :: 0 <= h < i ==> !IsHeaderAt(lines, h))
  {
  }

  /** `Classify` with the `prevBlank` the walk has at line `i`. */
  lemma ClassifyAt(lines: seq<string>, i: nat, prevBlank: bool)
    requires i < |lines| && prevBlank == AfterBlank(lines, i)
    ensures Classify(lines[i], prevBlank) == Header <==> IsHeaderAt(lines, i)
    ensures Classify(lines[i], prevBlank) == ItemLine <==> IsItemAt(lines, i)
  {
  }

  /** After the first `n` lines `prevBlank` says whether line `n - 1` was blank. */
  lemma PrevBlankAfter(lines: seq<string>, n: nat)
    requires n <= |lines|
    ensures WalkPrefix(lines, n).prevBlank == AfterBlank(lines, n)
  {
    if n == 0 {
      assert lines[..0] == [];
    } else {
      WalkPrefixStep(lines, n - 1);
    }
  }

  /** No section exists until a header or an item line has been read. */
  lemma {:induction false} EmptyAfter(lines: seq<string>, n: nat)
    requires n <= |lines|
    ensures (|WalkPrefix(lines, n).sections| == 0) ==
      (forall j :: 0 <= j < n ==> !IsHeaderAt(lines, j) && !IsItemAt(lines, j))
  {
    if n == 0 {
      assert lines[..0] == [];
    } else {
      var i := n - 1;
      EmptyAfter(lines, i);
      PrevBlankAfter(lines, i);
      WalkPrefixStep(lines, i);
      var st := WalkPrefix(lines, i);
      TitlesStep(st, lines[i]);
      ClassifyAt(lines, i, st.prevBlank);
    }
  }

  /**
   * After the first `n` lines the section titles are the header lines in
   * order, preceded by a single `Meny` exactly when an item line came before
   * every header.
   */
  lemma {:induction false} TitlesAfter(lines: seq<string>, n: nat)
    requires n <= |lines|
    ensures Titles(WalkPrefix(lines, n).sections) ==
      (if ItemBeforeHeaders(lines, n) then [DefaultTitle] else []) + HeadersBefore(lines, n)
  {
    if n == 0 {
      assert lines[..0] == [];
    } else {
      var i := n - 1;
      var st := WalkPrefix(lines, i);
      TitlesAfter(lines, i);
      WalkPrefixStep(lines, i);
      PrevBlankAfter(lines, i);
      ClassifyAt(lines, i, st.prevBlank);
      EmptyAfter(lines, i);
      TitlesStep(st, lines[i]);
      TitlesAfterStep(lines, i, Classify(lines[i], st.prevBlank), st.sections, WalkPrefix(lines, n).sections);
    }
  }

  /** The induction step of `TitlesAfter`, from what one line does to the titles. */
  lemma TitlesAfterStep(lines: seq<string>, i: nat, k: LineKind, before: Menu, after: Menu)
    requires i < |lines|
    requires Titles(before) == (if ItemBeforeHeaders(lines, i) then [DefaultTitle] else []) + HeadersBefore(lines, i)
    requires (k == Header <==> IsHeaderAt(lines, i)) && (k == ItemLine <==> IsItemAt(lines, i))
    requires (|before| == 0) == (forall j :: 0 <= j < i ==> !IsHeaderAt(lines, j) && !IsItemAt(lines, j))
    requires k == Header ==> Titles(after) == Titles(before) + [lines[i]]
    requires k == ItemLine && |before| == 0 ==> Titles(after) == [DefaultTitle]
    requires (k == ItemLine && |before| > 0) || k == Addon || k == Blank ==> Titles(after) == Titles(before)
    ensures Titles(after) == (if ItemBeforeHeaders(lines, i + 1) then [DefaultTitle] else []) + HeadersBefore(lines, i + 1)
  {
    var pre := if ItemBeforeHeaders(lines, i) then [DefaultTitle] else [];
    var hb := HeadersBefore(lines, i);
    if k == Header {
      ItemBeforeHeadersKeep(lines, i);
      assert pre + hb + [lines[i]] == pre + (hb + [lines[i]]);
    } else if k == ItemLine && |before| == 0 {
      FirstItemAt(lines, i);
    } else {
      ItemBeforeHeadersKeep(lines, i);
    }
  }

  /** An item line with no header before it: no header so far, and an item came first. */
  lemma FirstItemAt(lines: seq<string>, i: nat)
    requires i < |lines| && IsItemAt(lines, i)
    requires forall j :: 0 <= j < i ==> !IsHeaderAt(lines, j)
    ensures HeadersBefore(lines, i + 1) == [] && ItemBeforeHeaders(lines, i + 1)
  {
    HeadersBeforeNone(lines, i + 1);
  }

  /** Line `i` changes nothing about an item coming first when it is no item, or a header or item line came before it. */
  lemma ItemBeforeHeadersKeep(lines: seq<string>, i: nat)
    requires i < |lines|
    requires !IsItemAt(lines, i) || exists j :: 0 <= j < i && (IsHeaderAt(lines, j) || IsItemAt(lines, j))
    ensures ItemBeforeHeaders(lines, i + 1) == ItemBeforeHeaders(lines, i)
  {
    ItemBeforeHeadersStep(lines, i);
  }

  lemma {:induction false} HeadersBeforeNone(lines: seq<string>, n: nat)
    requires n <= |lines|
    requires forall j :: 0 <= j < n ==> !IsHeaderAt(lines, j)
    ensures HeadersBefore(lines, n) == []
  {
    if n > 0 {
      HeadersBeforeNone(lines, n - 1);
    }
  }

  /**
   * The sections of `Parse(raw)` are titled, in order, by the header lines
   * of the input, after one `Meny` section exactly when an item line comes
   * before every header.
   */
  lemma ParseTitles(raw: string)
    ensures var lines := Lines(raw);
      Titles(Parse(raw)) ==
        (if ItemBeforeHeaders(lines, |lines|) then [DefaultTitle] else []) + HeadersBefore(lines, |lines|)
  {
    var lines := Lines(raw);
    TitlesAfter(lines, |lines|);
    assert lines[..|lines|] == lines;
  }

  /** Every header line counted so far passes the header test and is a line of the input. */
  lemma {:induction false} HeadersAreLines(lines: seq<string>, n: nat)
    requires n <= |lines|
    ensures forall k :: 0 <= k < |HeadersBefore(lines, n)| ==>
      LooksLikeHeader(HeadersBefore(lines, n)[k]) && HeadersBefore(lines, n)[k] in lines
  {
    if n > 0 {
      HeadersAreLines(lines, n - 1);
      var h := HeadersBefore(lines, n - 1);
      if IsHeaderAt(lines, n - 1) {
        var r := h + [lines[n - 1]];
        assert HeadersBefore(lines, n) == r;
        forall k | 0 <= k < |r| ensures LooksLikeHeader(r[k]) && r[k] in lines {
          if k < |h| {
            assert r[k] == h[k];
          }
        }
      } else {
        assert HeadersBefore(lines, n) == h;
      }
    }
  }

  /** The default title would itself pass the header test. */
  lemma DefaultTitleLooksLikeHeader()
    ensures LooksLikeHeader(DefaultTitle)
  {
    var s := DefaultTitle;
    assert !PriceFrom(s, 3);
    assert !KrAt(s, 2) && !PriceFrom(s, 2);
    assert !KrAt(s, 1) && !PriceFrom(s, 1);
    assert !KrAt(s, 0) && !PriceFrom(s, 0);
  }

  /** Every section title passes the header test, and is `Meny` or a line of the input. */
  lemma ParseSectionTitles(raw: string)
    ensures forall k :: 0 <= k < |Parse(raw)| ==> LooksLikeHeader(Parse(raw)[k].title)
    ensures forall k :: 0 <= k < |Parse(raw)| ==>
      Parse(raw)[k].title == DefaultTitle || Parse(raw)[k].title in Lines(raw)
  {
    var lines := Lines(raw);
    ParseTitles(raw);
    HeadersAreLines(lines, |lines|);
    DefaultTitleLooksLikeHeader();
    var pre: seq<string> := if ItemBeforeHeaders(lines, |lines|) then [DefaultTitle] else [];
    TitlesFromHeaders(Parse(raw), pre, HeadersBefore(lines, |lines|), lines);
  }

  /** Titles made of `Meny`s followed by header lines of the input. */
  lemma TitlesFromHeaders(m: Menu, pre: seq<string>, hs: seq<string>, lines: seq<string>)
    requires Titles(m) == pre + hs && LooksLikeHeader(DefaultTitle)
    requires forall k :: 0 <= k < |pre| ==> pre[k] == DefaultTitle
    requires forall k :: 0 <= k < |hs| ==> LooksLikeHeader(hs[k]) && hs[k] in lines
    ensures forall k :: 0 <= k < |m| ==> LooksLikeHeader(m[k].title)
    ensures forall k :: 0 <= k < |m| ==> m[k].title == DefaultTitle || m[k].title in lines
  {
    forall k | 0 <= k < |m|
      ensures LooksLikeHeader(m[k].title) && (m[k].title == DefaultTitle || m[k].title in lines)
    {
      assert m[k].title == (pre + hs)[k];
      if k >= |pre| {
        assert (pre + hs)[k] == hs[k - |pre|];
      }
    }
  }

  // ---------------------------------------------------------------------
  // Blank input

  /** Input of whitespace, newlines and zero-width spaces only yields no sections. */
  lemma ParseBlank(raw: string)
    requires forall k :: 0 <= k < |raw| ==> IsWs(raw[k]) || raw[k] == '\U{200B}'
    ensures Parse(raw) == []
  {
    PrepareBlank(raw);
    LinesOfNothing(raw);
    WalkOneBlank();
  }

  lemma LinesOfNothing(raw: string)
    requires Prepare(raw) == []
    ensures Lines(raw) == [[]]
  {
    assert SplitOn([], '\n') == [[]];
    assert TrimEach([[]]) == [Trim([])];
  }

  lemma WalkOneBlank()
    ensures Walk(Start, [[]]).sections == []
  {
    assert Walk(Start, [[]]) == Walk(Step(Start, []), []);
  }

  /** Blank input prepares to the empty text. */
  lemma PrepareBlank(raw: string)
    requires forall k :: 0 <= k < |raw| ==> IsWs(raw[k]) || raw[k] == '\U{200B}'
    ensures Prepare(raw) == []
  {
    NotContainsByChar(raw, Marker, 'M');
    var s1 := Substitute(raw, '\r', "");
    var s2 := Substitute(s1, '\U{A0}', " ");
    BlankSubstitute(s2);
  }

  /** Deleting the zero-width spaces of blank text leaves whitespace only. */
  lemma BlankSubstitute(s2: string)
    requires forall d :: d in s2 ==> IsWs(d) || d == '\U{200B}'
    ensures AllWs(Substitute(s2, '\U{200B}', ""))
  {
    var c := Substitute(s2, '\U{200B}', "");
    forall k | 0 <= k < |c| ensures IsWs(c[k]) {
      assert c[k] in c;
    }
  }

  // ---------------------------------------------------------------------
  // Pre-processing

  /** No line holds a newline, a carriage return, a non-breaking space or a zero-width space, and every line is trimmed. */
  lemma LinesAreClean(raw: string)
    ensures forall k :: 0 <= k < |Lines(raw)| ==>
      var l := Lines(raw)[k];
      && '\n' !in l && '\r' !in l && '\U{A0}' !in l && '\U{200B}' !in l && Trimmed(l)
  {
    var p := Prepare(raw);
    var pieces := SplitOn(p, '\n');
    forall k | 0 <= k < |pieces|
      ensures var l := Trim(pieces[k]); '\n' !in l && '\r' !in l && '\U{A0}' !in l && '\U{200B}' !in l
    {
      PiecesOfCleanText(p, pieces, k);
      TrimKeepsChars(pieces[k]);
    }
    TrimEachAt(pieces);
  }

  lemma PiecesOfCleanText(p: string, pieces: seq<string>, k: nat)
    requires '\r' !in p && '\U{A0}' !in p && '\U{200B}' !in p
    requires |pieces| >= 1 && Join(pieces, '\n') == p && k < |pieces|
    ensures '\r' !in pieces[k] && '\U{A0}' !in pieces[k] && '\U{200B}' !in pieces[k]
  {
    JoinHasPieces(pieces, '\n', k);
  }

  lemma {:induction false} JoinHasPieces(pieces: seq<string>, sep: char, k: nat)
    requires |pieces| >= 1 && k < |pieces|
    ensures forall c :: c in pieces[k] ==> c in Join(pieces, sep)
  {
    if k > 0 {
      JoinHasPieces(pieces[1..], sep, k - 1);
    }
  }

  /** With the marker only the text between its first and second occurrence is parsed. */
  lemma ParseWithMarker(raw: string)
    requires Contains(raw, Marker)
    ensures Parse(raw) == Parse(SecondPiece(raw, Marker))
  {
    var x := SecondPiece(raw, Marker);
    TrimCleanTrim(x);
  }

  /** Trimming before cleaning changes nothing once the result is trimmed again. */
  lemma TrimCleanTrim(x: string)
    ensures Trim(Clean(Trim(x))) == Trim(Clean(x))
  {
    var a := LeadingWs(x);
    var t := Trim(x);
    var b := a + |t|;
    TrimIsInfix(x);
    var pre, post := x[..a], x[b..];
    SliceThree(x, a, b);
    assert x == pre + t + post;
    CleanAppend(pre + t, post);
    CleanAppend(pre, t);
    CleanWs(pre);
    CleanWs(post);
    TrimWsAround(Clean(pre), Clean(t), Clean(post));
  }

}
