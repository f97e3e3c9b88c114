/**
 * The menu text parser `renderStructuredMenu` (helpers/menu.js:120-251),
 * with the DOM it builds replaced by a plain value: a sequence of sections,
 * each with a title and items carrying a name, a price, ingredients and addons.
 *
 * `Step` is one turn of the `forEach` walk over the trimmed lines, `Walk`
 * the whole walk as a fold, and `RenderStructuredMenu` the walk as the
 * loop the source runs, proved to compute `Parse`.
 */
module MenuParser {
  import opened Options
  import opened MenuText

  /** A menu entry. An empty `price` or `ingredients` is one the source does not render. */
  datatype Item = Item(name: string, price: string, ingredients: string, addons: seq<string>)

  datatype Section = Section(title: string, items: seq<Item>)

  type Menu = seq<Section>

  /** The boilerplate marker of the readability proxy. */
  const Marker: string := "Markdown Content:"

  /** The title of the section made for items that come before any header. */
  const DefaultTitle: string := "Meny"

  // ---------------------------------------------------------------------
  // Pre-processing (helpers/menu.js:121-132)

  /** The text after the first occurrence of `m`. */
  function AfterMarker(s: string, m: string): (r: string)
    requires Contains(s, m)
    ensures |r| + |m| <= |s| && r == s[|s| - |r|..]
  {
    s[IndexOf(s, m).value + |m|..]
  }

  /**
   * `s.split(m)[1]`: the text after the first occurrence of `m`, up to the
   * next occurrence or to the end when there is none.
   */
  function SecondPiece(s: string, m: string): (r: string)
    requires Contains(s, m) && m != []
    ensures !Contains(r, m)
    ensures r <= AfterMarker(s, m)
    ensures forall k :: 0 <= k < |r| ==> !OccursAt(AfterMarker(s, m), m, k)
    ensures r == AfterMarker(s, m) || OccursAt(AfterMarker(s, m), m, |r|)
  {
    var rest := AfterMarker(s, m);
    match IndexOf(rest, m)
    case Some(j) =>
      assert forall k: nat :: OccursAt(rest[..j], m, k) ==> k < j && OccursAt(rest, m, k) by {
        forall k: nat | OccursAt(rest[..j], m, k) ensures k < j && OccursAt(rest, m, k) {
          assert rest[..j][k..k + |m|] == rest[k..k + |m|];
        }
      }
      rest[..j]
    case None =>
      rest
  }

  /** Carriage returns and zero-width spaces deleted, non-breaking spaces made plain. */
  function Clean(s: string): (r: string)
    ensures '\r' !in r && '\U{A0}' !in r && '\U{200B}' !in r
    ensures '\r' !in s && '\U{A0}' !in s && '\U{200B}' !in s ==> r == s
  {
    Substitute(Substitute(Substitute(s, '\r', ""), '\U{A0}', " "), '\U{200B}', "")
  }

  /**
   * What the clean-up does to one character: carriage returns and
   * zero-width spaces are deleted, a non-breaking space becomes a space, and
   * every other character is kept. With `CleanAppend` this fixes `Clean`.
   */
  lemma CleanChar(d: char)
    ensures Clean([d]) == (if d == '\r' || d == '\U{200B}' then [] else if d == '\U{A0}' then " " else [d])
  {
    SubstituteChar(d, '\r', "");
    if d != '\r' {
      SubstituteChar(d, '\U{A0}', " ");
      var e := if d == '\U{A0}' then ' ' else d;
      assert Substitute([d], '\U{A0}', " ") == [e];
      SubstituteChar(e, '\U{200B}', "");
    } else {
      assert Substitute([], '\U{A0}', " ") == [];
      assert Substitute([], '\U{200B}', "") == [];
    }
  }

  /** The clean-up works piece by piece. */
  lemma {:induction false} CleanAppend(u: string, v: string)
    ensures Clean(u + v) == Clean(u) + Clean(v)
  {
    SubstituteAppend(u, v, '\r', "");
    SubstituteAppend(Substitute(u, '\r', ""), Substitute(v, '\r', ""), '\U{A0}', " ");
    SubstituteAppend(Substitute(Substitute(u, '\r', ""), '\U{A0}', " "),
                     Substitute(Substitute(v, '\r', ""), '\U{A0}', " "), '\U{200B}', "");
  }

  lemma CleanWs(w: string)
    requires AllWs(w)
    ensures AllWs(Clean(w))
  {
    var c := Clean(w);
    forall k | 0 <= k < |c| ensures IsWs(c[k]) {
      assert c[k] in c;
    }
  }

  /** The text the lines are split from: trimmed, and with none of the characters the clean-up removes. */
  function Prepare(raw: string): (r: string)
    ensures Trimmed(r) && '\r' !in r && '\U{A0}' !in r && '\U{200B}' !in r
  {
    var text := if Contains(raw, Marker) then Trim(SecondPiece(raw, Marker)) else raw;
    var c := Clean(text);
    TrimKeepsChars(c);
    Trim(c)
  }

  function TrimEach(pieces: seq<string>): (r: seq<string>)
    ensures |r| == |pieces|
  {
    if pieces == [] then [] else [Trim(pieces[0])] + TrimEach(pieces[1..])
  }

  /** `TrimEach` trims every piece in place. */
  lemma {:induction false} TrimEachAt(pieces: seq<string>)
    ensures forall k :: 0 <= k < |pieces| ==> TrimEach(pieces)[k] == Trim(pieces[k])
  {
    if pieces != [] {
      var rest := pieces[1..];
      TrimEachAt(rest);
      var r := TrimEach(pieces);
      assert r == [Trim(pieces[0])] + TrimEach(rest);
      forall k | 1 <= k < |pieces| ensures r[k] == Trim(pieces[k]) {
        assert r[k] == TrimEach(rest)[k - 1] && rest[k - 1] == pieces[k];
      }
    }
  }

  /** `text.split("\n").map(s => s.trim())`. */
  function Lines(raw: string): seq<string> {
    TrimEach(SplitOn(Prepare(raw), '\n'))
  }

  // ---------------------------------------------------------------------
  // Line predicates (helpers/menu.js:145-151)

  /** `kr` in any letter case at index `e`. */
  predicate KrAt(s: string, e: nat) {
    e + 2 <= |s| && (s[e] == 'k' || s[e] == 'K') && (s[e + 1] == 'r' || s[e + 1] == 'R')
  }

  /** `\b` at index `p`, right after a word character. */
  predicate BoundaryAfterWordChar(s: string, p: nat) {
    p >= |s| || !IsWordChar(s[p])
  }

  /** Where the whitespace run that ends at `e` starts. */
  function WsStartBefore(s: string, e: nat): (d: nat)
    requires e <= |s|
    ensures d <= e
    ensures forall k :: d <= k < e ==> IsWs(s[k])
    ensures d == 0 || !IsWs(s[d - 1])
  {
    if e == 0 || !IsWs(s[e - 1]) then e else WsStartBefore(s, e - 1)
  }

  /** Where the digit run that ends at `e` starts. */
  function DigitStartBefore(s: string, e: nat): (d: nat)
    requires e <= |s|
    ensures d <= e
    ensures forall k :: d <= k < e ==> IsDigit(s[k])
    ensures d == 0 || !IsDigit(s[d - 1])
  {
    if e == 0 || !IsDigit(s[e - 1]) then e else DigitStartBefore(s, e - 1)
  }

  /** `\d+\s*kr` with its `kr` at index `e`: a digit right before the whitespace run ending at `e`. */
  predicate PriceEndsAt(s: string, e: nat) {
    KrAt(s, e) && var d := WsStartBefore(s, e); d > 0 && IsDigit(s[d - 1])
  }

  /** Some match of `/\d+\s*kr\b/i` has its `kr` at an index `e >= from`. */
  predicate PriceFrom(s: string, from: nat)
    decreases |s| - from
  {
    from + 2 <= |s| && ((PriceEndsAt(s, from) && BoundaryAfterWordChar(s, from + 2)) || PriceFrom(s, from + 1))
  }

  /** `isPriceLine`: `/\d+\s*kr\b/i.test(s)`. */
  predicate IsPriceLine(s: string) {
    PriceFrom(s, 0)
  }

  /** The regular expression `\d+\s*kr\b` (flag `i`) matches `s[i..e+2]`, with the digits in `s[i..d]`. */
  ghost predicate PriceMatch(s: string, i: nat, d: nat, e: nat) {
    && i < d <= e && KrAt(s, e) && BoundaryAfterWordChar(s, e + 2)
    && (forall k :: i <= k < d ==> IsDigit(s[k]))
    && (forall k :: d <= k < e ==> IsWs(s[k]))
  }

  /** `IsPriceLine` is the regular expression test. */
  lemma IsPriceLineSpec(s: string)
    ensures IsPriceLine(s) <==> exists i, d, e :: PriceMatch(s, i, d, e)
  {
    if IsPriceLine(s) {
      var e := PriceFromWitness(s, 0);
      var d := WsStartBefore(s, e);
      assert PriceMatch(s, d - 1, d, e);
    }
    if exists i, d, e :: PriceMatch(s, i, d, e) {
      var i, d, e :| PriceMatch(s, i, d, e);
      assert !IsWs(s[d - 1]);
      assert WsStartBefore(s, e) == d;
      PriceFromBelow(s, 0, e);
    }
  }

  lemma {:induction false} PriceFromWitness(s: string, from: nat) returns (e: nat)
    requires PriceFrom(s, from)
    ensures from <= e && PriceEndsAt(s, e) && BoundaryAfterWordChar(s, e + 2)
    decreases |s| - from
  {
    if PriceEndsAt(s, from) && BoundaryAfterWordChar(s, from + 2) {
      e := from;
    } else {
      e := PriceFromWitness(s, from + 1);
    }
  }

  lemma {:induction false} PriceFromBelow(s: string, from: nat, e: nat)
    requires from <= e && PriceEndsAt(s, e) && BoundaryAfterWordChar(s, e + 2)
    ensures PriceFrom(s, from)
    decreases e - from
  {
    if from < e {
      PriceFromBelow(s, from + 1, e);
    }
  }

  /** `isAddonLine`: `/^-\s+/.test(s)`. */
  predicate IsAddonLine(s: string) {
    |s| >= 2 && s[0] == '-' && IsWs(s[1])
  }

  /** `looksLikeHeader`. */
  predicate LooksLikeHeader(s: string) {
    |s| > 0 && '-' !in s && !IsPriceLine(s) && !IsAddonLine(s)
  }

  /** `isAddonLine` is the test of `^-\s+`: a hyphen, then one or more whitespace characters. */
  lemma IsAddonLineSpec(s: string)
    ensures IsAddonLine(s) <==> exists n :: 1 <= n <= |s| - 1 && s[0] == '-' && AllWs(s[1..][..n])
  {
    if IsAddonLine(s) {
      assert s[1..][..1][0] == s[1];
      assert AllWs(s[1..][..1]);
    }
    if exists n :: 1 <= n <= |s| - 1 && s[0] == '-' && AllWs(s[1..][..n]) {
      var n :| 1 <= n <= |s| - 1 && s[0] == '-' && AllWs(s[1..][..n]);
      assert s[1..][..n][0] == s[1];
    }
  }

  /**
   * `looksLikeHeader`: a non-empty line without hyphens on which the price
   * pattern matches nothing. Its addon test adds nothing, since an addon
   * line starts with a hyphen.
   */
  lemma LooksLikeHeaderSpec(s: string)
    ensures LooksLikeHeader(s) <==> s != [] && '-' !in s && !exists i, d, e :: PriceMatch(s, i, d, e)
  {
    IsPriceLineSpec(s);
    if IsAddonLine(s) {
      assert s[0] in s;
    }
  }

  /** The number of hyphens `s` starts with. */
  function LeadingHyphens(s: string): (n: nat)
    ensures n <= |s|
    ensures forall k :: 0 <= k < n ==> s[k] == '-'
    ensures n == |s| || s[n] != '-'
  {
    if s == [] || s[0] != '-' then 0 else 1 + LeadingHyphens(s[1..])
  }

  /** An addon's text: `line.replace`, pattern `^-+\s*`, with the empty string. */
  function AddonText(line: string): string {
    TrimStart(line[LeadingHyphens(line)..])
  }

  /**
   * The strip `^-+\s*`: a run of hyphens and the whitespace run after it are removed. When no
   * whitespace follows, the hyphen run is maximal, so the text cannot start with a hyphen.
   */
  lemma AddonTextStrips(hs: string, w: string, a: string)
    requires hs != [] && (forall k :: 0 <= k < |hs| ==> hs[k] == '-') && AllWs(w)
    requires a == [] || !IsWs(a[0])
    requires w == [] && a != [] ==> a[0] != '-'
    ensures AddonText(hs + w + a) == a
  {
    var line := hs + w + a;
    LeadingHyphensIs(line, |hs|);
    assert line[|hs|..] == w + a;
    LeadingWsIs(w + a, |w|);
    assert (w + a)[|w|..] == a;
  }

  /** `LeadingHyphens` is the length of the hyphen run that starts `s`. */
  lemma {:induction false} LeadingHyphensIs(s: string, n: nat)
    requires n <= |s| && (forall k :: 0 <= k < n ==> s[k] == '-') && (n == |s| || s[n] != '-')
    ensures LeadingHyphens(s) == n
    decreases n
  {
    if n > 0 {
      LeadingHyphensIs(s[1..], n - 1);
    }
  }

  /** The addon written after `- ` is read back. */
  lemma AddonTextOfMarked(a: string)
    requires a == [] || !IsWs(a[0])
    ensures AddonText("- " + a) == a
  {
    AddonTextStrips("-", " ", a);
    assert "-" + " " + a == "- " + a;
  }

  // ---------------------------------------------------------------------
  // Splitting an item line (helpers/menu.js:201-215)

  /** `.replace(/[–—]/g, "-")`. */
  function UnifyDashes(s: string): (r: string)
    ensures |r| == |s|
    ensures forall k :: 0 <= k < |s| ==> r[k] == (if s[k] == '–' || s[k] == '—' then '-' else s[k])
  {
    if s == [] then [] else [if s[0] == '–' || s[0] == '—' then '-' else s[0]] + UnifyDashes(s[1..])
  }

  /**
   * The global replace of the pattern `\s*-\s*` by `" - "`: scanning from the left, each hyphen with
   * the whitespace runs on both sides of it becomes `" - "`.
   */
  function CollapseDashes(s: string): string
    decreases |s|
  {
    if s == [] then []
    else
      var w := LeadingWs(s);
      if w < |s| && s[w] == '-' then " - " + CollapseDashes(TrimStart(s[w + 1..]))
      else [s[0]] + CollapseDashes(s[1..])
  }

  /** After the dash rule every hyphen stands between two spaces. */
  lemma {:induction false} CollapseSpacesHyphens(s: string)
    ensures SpacedHyphens(CollapseDashes(s))
    decreases |s|
  {
    if s != [] {
      var rest := CollapseRest(s);
      CollapseSpacesHyphens(rest);
      SpacedStep(s);
    }
  }

  /** What the dash rule goes on with after the first character or the first separator of `s`. */
  function CollapseRest(s: string): (r: string)
    requires s != []
    ensures |r| < |s|
  {
    var w := LeadingWs(s);
    if w < |s| && s[w] == '-' then TrimStart(s[w + 1..]) else s[1..]
  }

  lemma SpacedStep(s: string)
    requires s != [] && SpacedHyphens(CollapseDashes(CollapseRest(s)))
    ensures SpacedHyphens(CollapseDashes(s))
  {
    var w := LeadingWs(s);
    var tail := CollapseDashes(CollapseRest(s));
    if w < |s| && s[w] == '-' {
      assert CollapseDashes(s) == " - " + tail;
      SpacedAfterSeparator(tail);
    } else {
      assert s[0] != '-';
      assert CollapseDashes(s) == [s[0]] + tail;
      SpacedAfterChar(s[0], tail);
    }
  }

  /** Every hyphen of `r` has a space on either side. */
  predicate SpacedHyphens(r: string) {
    forall k :: 0 <= k < |r| && r[k] == '-' ==> 0 < k < |r| - 1 && r[k - 1] == ' ' && r[k + 1] == ' '
  }

  lemma SpacedAfterSeparator(tail: string)
    requires SpacedHyphens(tail)
    ensures SpacedHyphens(" - " + tail)
  {
    var r := " - " + tail;
    forall k | 0 <= k < |r| && r[k] == '-' ensures 0 < k < |r| - 1 && r[k - 1] == ' ' && r[k + 1] == ' ' {
      if k >= 3 {
        assert r[k] == tail[k - 3];
        assert r[k - 1] == tail[k - 4] && r[k + 1] == tail[k - 2];
      }
    }
  }

  lemma SpacedAfterChar(c: char, tail: string)
    requires c != '-' && SpacedHyphens(tail)
    ensures SpacedHyphens([c] + tail)
  {
    var r := [c] + tail;
    forall k | 0 <= k < |r| && r[k] == '-' ensures 0 < k < |r| - 1 && r[k - 1] == ' ' && r[k + 1] == ' ' {
      assert r[k] == tail[k - 1];
      assert r[k - 1] == tail[k - 2] && r[k + 1] == tail[k];
    }
  }

  /** A line without hyphens is left as it is. */
  lemma {:induction false} CollapseWithoutHyphen(s: string)
    requires '-' !in s
    ensures CollapseDashes(s) == s
  {
    if s != [] {
      var w := LeadingWs(s);
      assert w < |s| ==> s[w] in s;
      assert '-' !in s[1..] by { assert forall c :: c in s[1..] ==> c in s; }
      CollapseWithoutHyphen(s[1..]);
      assert s == [s[0]] + s[1..];
    }
  }

  /** The dash rule leaves a hyphen-free prefix that ends in a non-whitespace character as it is. */
  lemma {:induction false} CollapseKeepsPrefix(a: string, b: string)
    requires '-' !in a && (a == [] || !IsWs(a[|a| - 1]))
    ensures CollapseDashes(a + b) == a + CollapseDashes(b)
    decreases |a|
  {
    if a == [] {
      assert a + b == b;
    } else {
      PrefixStep(a, b);
      CollapseKeepsPrefix(a[1..], b);
      ConsAssoc(a, CollapseDashes(b));
    }
  }

  /** The first character of a hyphen-free prefix ending in a non-whitespace character is copied. */
  lemma PrefixStep(a: string, b: string)
    requires a != [] && '-' !in a && !IsWs(a[|a| - 1])
    ensures CollapseDashes(a + b) == [a[0]] + CollapseDashes(a[1..] + b)
    ensures '-' !in a[1..] && (a[1..] == [] || !IsWs(a[1..][|a[1..]| - 1]))
  {
    var s := a + b;
    var w := LeadingWs(s);
    assert s[|a| - 1] == a[|a| - 1];
    assert w < |a|;
    assert s[w] == a[w] && a[w] in a;
    assert s[1..] == a[1..] + b;
    assert CollapseRest(s) == a[1..] + b;
    CollapseCopies(s);
    assert '-' !in a[1..] by { assert forall c :: c in a[1..] ==> c in a; }
  }

  /** When `s` does not start with a separator its first character is copied. */
  lemma CollapseCopies(s: string)
    requires s != [] && !(LeadingWs(s) < |s| && s[LeadingWs(s)] == '-')
    ensures CollapseDashes(s) == [s[0]] + CollapseDashes(s[1..])
  {
  }

  lemma ConsAssoc(a: string, c: string)
    requires a != []
    ensures [a[0]] + (a[1..] + c) == a + c
  {
    assert [a[0]] + a[1..] == a;
  }

  /**
   * One separator: a hyphen with the whitespace runs on both sides of it, followed by text that does not
   * start with whitespace, becomes `" - "`.
   */
  lemma CollapseSeparator(w1: string, w2: string, rest: string)
    requires AllWs(w1) && AllWs(w2) && (rest == [] || !IsWs(rest[0]))
    ensures CollapseDashes(w1 + "-" + w2 + rest) == " - " + CollapseDashes(rest)
  {
    var s := w1 + "-" + w2 + rest;
    HyphenAfterWs(w1, w2 + rest);
    assert s == w1 + "-" + (w2 + rest);
    CollapseAtHyphen(s);
    TrimStartOfWs(w2, rest);
  }

  /** The whitespace run before a hyphen is all of `w`, and the text after the hyphen is `t`. */
  lemma HyphenAfterWs(w: string, t: string)
    requires AllWs(w)
    ensures LeadingWs(w + "-" + t) == |w| && (w + "-" + t)[|w|] == '-'
    ensures (w + "-" + t)[|w| + 1..] == t
  {
    var s := w + "-" + t;
    assert s[..|w|] == w;
    LeadingWsIs(s, |w|);
  }

  /** `TrimStart` removes exactly a whitespace run followed by a non-whitespace character. */
  lemma TrimStartOfWs(w: string, rest: string)
    requires AllWs(w) && (rest == [] || !IsWs(rest[0]))
    ensures TrimStart(w + rest) == rest
  {
    var t := w + rest;
    assert t[..|w|] == w;
    LeadingWsIs(t, |w|);
    assert t[|w|..] == rest;
  }

  /** When `s` starts with a separator, it becomes `" - "` and the rule goes on after the whitespace run. */
  lemma CollapseAtHyphen(s: string)
    requires LeadingWs(s) < |s| && s[LeadingWs(s)] == '-'
    ensures CollapseDashes(s) == " - " + CollapseDashes(TrimStart(s[LeadingWs(s) + 1..]))
  {
  }

  /** `LeadingWs` is the length of the whitespace run that starts `s`. */
  lemma {:induction false} LeadingWsIs(s: string, n: nat)
    requires n <= |s| && AllWs(s[..n]) && (n == |s| || !IsWs(s[n]))
    ensures LeadingWs(s) == n
    decreases n
  {
    if n > 0 {
      assert IsWs(s[..n][0]);
      assert s[1..][..n - 1] == s[..n][1..];
      LeadingWsIs(s[1..], n - 1);
    }
  }

  /** A single hyphen between two hyphen-free words is spaced out. */
  lemma CollapseOneHyphen(a: string, b: string)
    requires '-' !in a && '-' !in b && a != [] && !IsWs(a[|a| - 1]) && (b == [] || !IsWs(b[0]))
    ensures CollapseDashes(a + "-" + b) == a + " - " + b
  {
    CollapseLeadingHyphen(b);
    CollapseKeepsPrefix(a, "-" + b);
    assert a + "-" + b == a + ("-" + b);
    assert a + (" - " + b) == a + " - " + b;
  }

  /** A hyphen before hyphen-free text that does not start with whitespace becomes `" - "`. */
  lemma CollapseLeadingHyphen(b: string)
    requires '-' !in b && (b == [] || !IsWs(b[0]))
    ensures CollapseDashes("-" + b) == " - " + b
  {
    var s := "-" + b;
    assert LeadingWs(s) == 0;
    CollapseAtHyphen(s);
    assert s[1..] == b;
    TrimStartOfWs([], b);
    CollapseWithoutHyphen(b);
  }

  /** The rule also applies inside a word: `x-y` becomes `x - y`, so `"a-b"` becomes `"a - b"`. */
  lemma CollapseInWord(x: char, y: char)
    requires x != '-' && y != '-' && !IsWs(x) && !IsWs(y)
    ensures CollapseDashes([x, '-', y]) == [x, ' ', '-', ' ', y]
  {
    CollapseOneHyphen([x], [y]);
    assert [x] + "-" + [y] == [x, '-', y];
    assert [x] + " - " + [y] == [x, ' ', '-', ' ', y];
  }

  /** The `normalized` line the item is split from. */
  function NormalizeDashes(line: string): string {
    CollapseDashes(UnifyDashes(line))
  }

  /** `kr` at the very end, a whitespace run before it and a digit before that: `/(\d+)\s*kr\b$/i`. Its start, if it matches. */
  function TrailingPriceStart(s: string): (r: Option<nat>)
    ensures r.Some? ==> r.value < |s|
  {
    if |s| >= 2 && KrAt(s, |s| - 2) then
      var d := WsStartBefore(s, |s| - 2);
      if d > 0 && IsDigit(s[d - 1]) then Some(DigitStartBefore(s, d)) else None
    else None
  }

  /** `t` is `\d+\s*kr` (flag `i`) with the digits in `t[..d]`. */
  ghost predicate PriceTailSplit(t: string, d: nat) {
    && 1 <= d <= |t| - 2 && KrAt(t, |t| - 2)
    && (forall k :: 0 <= k < d ==> IsDigit(t[k]))
    && (forall k :: d <= k < |t| - 2 ==> IsWs(t[k]))
  }

  /** The whole of `t` matches `\d+\s*kr` (flag `i`). */
  ghost predicate IsPriceTail(t: string) {
    exists d :: PriceTailSplit(t, d)
  }

  /**
   * `TrailingPriceStart` finds the match the regular expression finds: the
   * leftmost start of a suffix of the form digits, whitespace, `kr`.
   */
  lemma TrailingPriceSpec(s: string)
    ensures TrailingPriceStart(s).Some? ==> IsPriceTail(s[TrailingPriceStart(s).value..])
    ensures TrailingPriceStart(s).Some? ==> forall j :: 0 <= j < TrailingPriceStart(s).value ==> !IsPriceTail(s[j..])
    ensures TrailingPriceStart(s).None? ==> forall j :: 0 <= j <= |s| ==> !IsPriceTail(s[j..])
  {
    forall j | 0 <= j <= |s| && IsPriceTail(s[j..])
      ensures TrailingPriceStart(s).Some? && TrailingPriceStart(s).value <= j
    {
      TrailingPriceBelow(s, j);
    }
    if TrailingPriceStart(s).Some? {
      TrailingPriceMatches(s);
    }
  }

  /** A match starting at `j` makes `TrailingPriceStart` find one starting at or before `j`. */
  lemma TrailingPriceBelow(s: string, j: nat)
    requires j <= |s| && IsPriceTail(s[j..])
    ensures TrailingPriceStart(s).Some? && TrailingPriceStart(s).value <= j
  {
    var n := |s|;
    var t := s[j..];
    var d :| PriceTailSplit(t, d);
    assert KrAt(s, n - 2) by { assert t[|t| - 2] == s[n - 2] && t[|t| - 1] == s[n - 1]; }
    assert forall k :: j + d <= k < n - 2 ==> IsWs(s[k]) by {
      forall k | j + d <= k < n - 2 ensures IsWs(s[k]) { assert s[k] == t[k - j]; }
    }
    assert forall k :: j <= k < j + d ==> IsDigit(s[k]) by {
      forall k | j <= k < j + d ensures IsDigit(s[k]) { assert s[k] == t[k - j]; }
    }
    PriceAt(s, j, j + d);
  }

  /** Digits in `s[j..e]`, then whitespace up to a final `kr`: `TrailingPriceStart` finds a start at or before `j`. */
  lemma PriceAt(s: string, j: nat, e: nat)
    requires j < e <= |s| - 2 && KrAt(s, |s| - 2)
    requires forall k :: j <= k < e ==> IsDigit(s[k])
    requires forall k :: e <= k < |s| - 2 ==> IsWs(s[k])
    ensures TrailingPriceStart(s).Some? && TrailingPriceStart(s).value <= j
  {
    assert !IsWs(s[e - 1]) && IsDigit(s[e - 1]);
    WsStartAt(s, |s| - 2, e);
    DigitStartAtMost(s, e, j);
  }

  lemma WsStartAt(s: string, e: nat, b: nat)
    requires b <= e <= |s| && (forall k :: b <= k < e ==> IsWs(s[k])) && (b == 0 || !IsWs(s[b - 1]))
    ensures WsStartBefore(s, e) == b
  {
    var w := WsStartBefore(s, e);
    if w < b {
      assert false;
    } else if w > b {
      assert false;
    }
  }

  lemma DigitStartAtMost(s: string, e: nat, b: nat)
    requires b <= e <= |s| && forall k :: b <= k < e ==> IsDigit(s[k])
    ensures DigitStartBefore(s, e) <= b
  {
    var w := DigitStartBefore(s, e);
    if w > b {
      assert false;
    }
  }

  /** What `TrailingPriceStart` finds is a match. */
  lemma TrailingPriceMatches(s: string)
    requires TrailingPriceStart(s).Some?
    ensures IsPriceTail(s[TrailingPriceStart(s).value..])
  {
    var n := |s|;
    var i := TrailingPriceStart(s).value;
    var d := WsStartBefore(s, n - 2);
    SuffixSplit(s, i, d);
  }

  /** The pieces of a price match seen from where its digits start. */
  lemma SuffixSplit(s: string, i: nat, d: nat)
    requires i < d <= |s| - 2 && KrAt(s, |s| - 2)
    requires forall k :: i <= k < d ==> IsDigit(s[k])
    requires forall k :: d <= k < |s| - 2 ==> IsWs(s[k])
    ensures PriceTailSplit(s[i..], d - i)
  {
    var t := s[i..];
    forall k | 0 <= k < d - i ensures IsDigit(t[k]) { assert t[k] == s[i + k]; }
    forall k | d - i <= k < |t| - 2 ensures IsWs(t[k]) { assert t[k] == s[i + k]; }
    assert t[|t| - 2] == s[|s| - 2] && t[|t| - 1] == s[|s| - 1];
  }

  /** How an item line splits into name, price and ingredients. */
  function SplitItem(line: string): Item {
    SplitNormalized(NormalizeDashes(line))
  }

  /** The split of the `normalized` line: the trailing price first, then the first ` - `. */
  function SplitNormalized(normalized: string): Item {
    var start := TrailingPriceStart(normalized);
    var beforePrice := if start.Some? then Trim(normalized[..start.value]) else normalized;
    var price := if start.Some? then Trim(normalized[start.value..]) else "";
    match IndexOf(beforePrice, " - ")
    case Some(idx) => Item(Trim(beforePrice[..idx]), price, Trim(beforePrice[idx + 3..]), [])
    case None => Item(beforePrice, price, "", [])
  }

  /**
   * Without a price, the line is split at its first ` - `: the name is the trimmed text before it and the
   * ingredients the trimmed text after it, whatever separators that holds.
   */
  lemma SplitAtFirstSeparator(n: string, a: string, b: string)
    requires n == a + " - " + b && TrailingPriceStart(n).None?
    requires forall k :: 0 <= k < |a| ==> !OccursAt(n, " - ", k)
    ensures SplitNormalized(n) == Item(Trim(a), "", Trim(b), [])
  {
    FirstSeparatorAt(n, a, b);
    assert n[..|a|] == a && n[|a| + 3..] == b;
  }

  /** With a price, the text before it is split at its first ` - ` in the same way. */
  lemma SplitPricedAtFirstSeparator(n: string, a: string, b: string)
    requires TrailingPriceStart(n).Some?
    requires Trim(n[..TrailingPriceStart(n).value]) == a + " - " + b
    requires forall k :: 0 <= k < |a| ==> !OccursAt(a + " - " + b, " - ", k)
    ensures SplitNormalized(n) == Item(Trim(a), Trim(n[TrailingPriceStart(n).value..]), Trim(b), [])
  {
    var s := a + " - " + b;
    FirstSeparatorAt(s, a, b);
    assert s[..|a|] == a && s[|a| + 3..] == b;
  }

  /** A line without ` - ` and without a price is all name. */
  lemma SplitWithoutSeparator(n: string)
    requires TrailingPriceStart(n).None? && !Contains(n, " - ")
    ensures SplitNormalized(n) == Item(n, "", "", [])
  {
  }

  /** A priced line without ` - ` before the price has empty ingredients. */
  lemma SplitPricedWithoutSeparator(n: string)
    requires TrailingPriceStart(n).Some? && !Contains(Trim(n[..TrailingPriceStart(n).value]), " - ")
    ensures var i := TrailingPriceStart(n).value;
      SplitNormalized(n) == Item(Trim(n[..i]), Trim(n[i..]), "", [])
  {
  }

  /** The line `name - ingredients price` with a hyphen-free name, as `normalized` holds it. */
  lemma SplitNamedPriced(a: string, b: string, price: string)
    requires a != [] && b != [] && Trimmed(a) && Trimmed(b) && Trimmed(price) && '-' !in a
    requires TrailingPriceStart(a + " - " + b + " " + price) == Some(|a| + |b| + 4)
    ensures SplitNormalized(a + " - " + b + " " + price) == Item(a, price, b, [])
  {
    var n, s := a + " - " + b + " " + price, a + " - " + b;
    PricedPieces(a, b, price);
    NoSeparatorInName(a, b);
    SplitPricedAtFirstSeparator(n, a, b);
    TrimOfTrimmed(a);
    TrimOfTrimmed(b);
  }

  lemma PricedPieces(a: string, b: string, price: string)
    requires Trimmed(a + " - " + b) && Trimmed(price)
    ensures var n := a + " - " + b + " " + price;
      && Trim(n[..|a| + |b| + 4]) == a + " - " + b && Trim(n[|a| + |b| + 4..]) == price
  {
    var n, s := a + " - " + b + " " + price, a + " - " + b;
    assert n[..|a| + |b| + 4] == s + " ";
    assert n[|a| + |b| + 4..] == price;
    TrimOfWsAround([], s, " ");
    assert [] + s + " " == s + " ";
    TrimOfTrimmed(price);
  }

  lemma TrimOfTrimmed(s: string)
    requires Trimmed(s)
    ensures Trim(s) == s
  {
    TrimOfWsAround([], s, []);
    assert [] + s + [] == s;
  }

  /** A hyphen-free name holds no ` - ` of its own. */
  lemma NoSeparatorInName(a: string, b: string)
    requires '-' !in a
    ensures forall k :: 0 <= k < |a| ==> !OccursAt(a + " - " + b, " - ", k)
  {
    var s := a + " - " + b;
    forall k | 0 <= k < |a| ensures !OccursAt(s, " - ", k) {
      if k + 1 < |a| {
        assert s[k + 1] == a[k + 1] && a[k + 1] in a;
      }
      assert s[k + 1] != '-';
      assert k + 3 <= |s| ==> s[k..k + 3][1] == s[k + 1];
    }
  }

  /** The first ` - ` of `a + " - " + b` is the one after `a` when `a` holds none. */
  lemma FirstSeparatorAt(s: string, a: string, b: string)
    requires s == a + " - " + b
    requires forall k :: 0 <= k < |a| ==> !OccursAt(s, " - ", k)
    ensures IndexOf(s, " - ") == Some(|a|)
  {
    assert s[|a|..|a| + 3] == " - ";
    assert OccursAt(s, " - ", |a|);
  }

  /**
   * The price of an item is the trailing `\d+\s*kr` of its normalized line
   * exactly as the pattern matches it, and empty when the pattern matches
   * nothing.
   */
  lemma SplitItemPrice(line: string)
    ensures var n, p := NormalizeDashes(line), SplitItem(line).price;
      && (TrailingPriceStart(n).None? <==> p == [])
      && (p != [] ==> |p| <= |n| && n[|n| - |p|..] == p && IsPriceTail(p))
  {
    var n := NormalizeDashes(line);
    if TrailingPriceStart(n).Some? {
      var i := TrailingPriceStart(n).value;
      TrailingPriceMatches(n);
      var t := n[i..];
      var d :| PriceTailSplit(t, d);
      assert IsDigit(t[0]) && !IsWs(t[0]);
      assert !IsWs(t[|t| - 1]);
      assert Trim(t) == t;
      assert n[|n| - |t|..] == t;
    }
  }

  // ---------------------------------------------------------------------
  // The walk over the lines (helpers/menu.js:140-248)

  /**
   * The variables the `forEach` callback updates: the sections appended so
   * far (the last is the current one, `itemsWrap`), whether `lastItemEl` is
   * set, and `prevBlank`.
   */
  datatype ParseState = ParseState(sections: Menu, hasItem: bool, prevBlank: bool)

  const Start: ParseState := ParseState([], false, true)

  /** `lastItemEl` is set only while the current section has an item, which is the one it names. */
  predicate Valid(st: ParseState) {
    st.hasItem ==> |st.sections| > 0 && |st.sections[|st.sections| - 1].items| > 0
  }

  datatype LineKind = Blank | Header | Addon | ItemLine

  /** The order in which the callback tests a line: blank, header, addon, item. */
  function Classify(line: string, prevBlank: bool): LineKind {
    if line == [] then Blank
    else if prevBlank && LooksLikeHeader(line) then Header
    else if IsAddonLine(line) then Addon
    else ItemLine
  }

  /**
   * The kinds divide the lines as the callback's tests do. Whether a line is
   * an addon does not depend on `prevBlank`, since no addon line passes the
   * header test.
   */
  lemma ClassifyKinds(line: string, prevBlank: bool)
    ensures Classify(line, prevBlank) == Blank <==> line == []
    ensures Classify(line, prevBlank) == Header <==> prevBlank && LooksLikeHeader(line)
    ensures Classify(line, prevBlank) == Addon <==> IsAddonLine(line)
    ensures Classify(line, prevBlank) == ItemLine <==>
      line != [] && !IsAddonLine(line) && !(prevBlank && LooksLikeHeader(line))
  {
    if IsAddonLine(line) {
      assert line[0] in line;
    }
  }

  /** A new section with no items after the existing ones. */
  function OpenSection(sections: Menu, title: string): (r: Menu)
    ensures |r| == |sections| + 1 && r[..|sections|] == sections
    ensures r[|sections|] == Section(title, [])
  {
    sections + [Section(title, [])]
  }

  /** `it` appended to the items of the last section. */
  function AppendItem(sections: Menu, it: Item): (r: Menu)
    requires |sections| > 0
    ensures |r| == |sections| && r[..|r| - 1] == sections[..|sections| - 1]
    ensures r[|r| - 1].title == sections[|sections| - 1].title
    ensures r[|r| - 1].items == sections[|sections| - 1].items + [it]
  {
    var last := sections[|sections| - 1];
    sections[..|sections| - 1] + [last.(items := last.items + [it])]
  }

  /** `a` appended to the addons of the last item of the last section. */
  function AppendAddon(sections: Menu, a: string): (r: Menu)
    requires |sections| > 0 && |sections[|sections| - 1].items| > 0
    ensures |r| == |sections| && r[..|r| - 1] == sections[..|sections| - 1]
    ensures var last, last' := sections[|sections| - 1], r[|r| - 1];
      && last'.title == last.title && |last'.items| == |last.items|
      && last'.items[..|last.items| - 1] == last.items[..|last.items| - 1]
      && last'.items[|last.items| - 1] == last.items[|last.items| - 1].(addons := last.items[|last.items| - 1].addons + [a])
  {
    var last := sections[|sections| - 1];
    var it := last.items[|last.items| - 1];
    sections[..|sections| - 1] + [last.(items := last.items[..|last.items| - 1] + [it.(addons := it.addons + [a])])]
  }

  /** One call of the `forEach` callback. */
  function Step(st: ParseState, line: string): (r: ParseState)
    requires Valid(st)
    ensures Valid(r)
    ensures r.prevBlank == (line == [])
  {
    match Classify(line, st.prevBlank)
    case Blank => st.(prevBlank := true)
    case Header => ParseState(OpenSection(st.sections, line), false, false)
    case Addon =>
      if st.hasItem then st.(sections := AppendAddon(st.sections, AddonText(line)), prevBlank := false)
      else st.(prevBlank := false)
    case ItemLine =>
      var sections := if |st.sections| == 0 then OpenSection([], DefaultTitle) else st.sections;
      ParseState(AppendItem(sections, SplitItem(line)), true, false)
  }

  /** The callback run over `lines` in order. */
  function Walk(st: ParseState, lines: seq<string>): (r: ParseState)
    requires Valid(st)
    ensures Valid(r)
    decreases |lines|
  {
    if lines == [] then st else Walk(Step(st, lines[0]), lines[1..])
  }

  /** The menu `renderStructuredMenu(raw)` builds. */
  function Parse(raw: string): Menu {
    Walk(Start, Lines(raw)).sections
  }

  /** Walking two runs of lines walks the second from where the first stopped. */
  lemma {:induction false} WalkAppend(st: ParseState, a: seq<string>, b: seq<string>)
    requires Valid(st)
    ensures Walk(st, a + b) == Walk(Walk(st, a), b)
    decreases |a|
  {
    if a == [] {
      assert a + b == b;
    } else {
      assert (a + b)[0] == a[0] && (a + b)[1..] == a[1..] + b;
      WalkAppend(Step(st, a[0]), a[1..], b);
    }
  }

  /** `renderStructuredMenu` (helpers/menu.js:120-251): the walk as the loop the source runs. */
  method RenderStructuredMenu(rawText: string) returns (menu: Menu)
    ensures menu == Parse(rawText)
  {
    var lines := Lines(rawText);
    var sections: Menu := [];
    var lastItem := false;
    var prevBlank := true;
    for i := 0 to |lines|
      invariant Valid(ParseState(sections, lastItem, prevBlank))
      invariant Walk(ParseState(sections, lastItem, prevBlank), lines[i..]) == Walk(Start, lines)
    {
      ghost var before := ParseState(sections, lastItem, prevBlank);
      var line := lines[i];
      if line == [] {
        prevBlank := true;
      } else if prevBlank && LooksLikeHeader(line) {
        sections := sections + [Section(line, [])];
        lastItem := false;
        prevBlank := false;
      } else if IsAddonLine(line) {
        if lastItem {
          sections := AppendAddon(sections, AddonText(line));
        }
        prevBlank := false;
      } else {
        if |sections| == 0 {
          sections := [Section(DefaultTitle, [])];
        }
        sections := AppendItem(sections, SplitItem(line));
        lastItem := true;
        prevBlank := false;
      }
      assert ParseState(sections, lastItem, prevBlank) == Step(before, line);
      assert lines[i..][0] == line && lines[i..][1..] == lines[i + 1..];
    }
    assert lines[|lines|..] == [];
    menu := sections;
  }
}
