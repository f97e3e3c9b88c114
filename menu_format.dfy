/**
 * The text layout `renderStructuredMenu` reads, written out as a printer:
 * a section is its title, a blank line and its item lines; an item line is
 * `name - ingredients price`, followed by one `- addon` line per addon; and
 * sections are separated by blank lines. For every menu whose fields avoid
 * the characters that the pre-processing or the line tests react to,
 * parsing the printed text gives the menu back.
 */
module MenuFormat {
  import opened Options
  import opened MenuText
  import opened MenuParser

  // ---------------------------------------------------------------------
  // The printer

  /** `name - ingredients`, or the name alone. */
  function ItemHead(it: Item): string {
    if it.ingredients == [] then it.name else it.name + " - " + it.ingredients
  }

  /** The line an item is written on. */
  function ItemText(it: Item): string {
    if it.price == [] then ItemHead(it) else ItemHead(it) + " " + it.price
  }

  function AddonLines(addons: seq<string>): (r: seq<string>)
    ensures |r| == |addons|
  {
    if addons == [] then [] else ["- " + addons[0]] + AddonLines(addons[1..])
  }

  function ItemLines(items: seq<Item>): seq<string> {
    if items == [] then [] else [ItemText(items[0])] + AddonLines(items[0].addons) + ItemLines(items[1..])
  }

  function SectionLines(sec: Section): seq<string> {
    [sec.title] + (if sec.items == [] then [] else [""] + ItemLines(sec.items))
  }

  function DocLines(m: Menu): (r: seq<string>)
    requires m != []
    ensures |r| >= 1 && r[0] == m[0].title
  {
    if |m| == 1 then SectionLines(m[0]) else SectionLines(m[0]) + [""] + DocLines(m[1..])
  }

  /** The menu as text. */
  function Format(m: Menu): string {
    if m == [] then [] else Join(DocLines(m), '\n')
  }

  // ---------------------------------------------------------------------
  // Well-formed menus

  /** A character no pre-processing rule, separator or dash rule touches. */
  predicate SafeChar(c: char) {
    c != '\n' && c != '\r' && c != '\U{A0}' && c != '\U{200B}' && c != ':' && c != '–' && c != '—'
  }

  predicate Safe(s: string) {
    forall k :: 0 <= k < |s| ==> SafeChar(s[k])
  }

  /** A price as the source recognises one at the end of a line: digits, whitespace, `kr`. */
  predicate WellFormedPrice(p: string) {
    TrailingPriceStart(p) == Some(0) && Safe(p)
  }

  predicate WellFormedAddon(a: string) {
    a != [] && a[0] != '-' && Trimmed(a) && Safe(a)
  }

  predicate WellFormedItem(it: Item) {
    && it.name != [] && Trimmed(it.name) && '-' !in it.name && Safe(it.name)
    && Trimmed(it.ingredients) && '-' !in it.ingredients && Safe(it.ingredients)
    && (if it.price == [] then TrailingPriceStart(ItemHead(it)).None? else WellFormedPrice(it.price))
    && forall k :: 0 <= k < |it.addons| ==> WellFormedAddon(it.addons[k])
  }

  /** The title is a header line, and the first item line, which follows a blank line, is not taken for one. */
  predicate WellFormedSection(sec: Section) {
    && LooksLikeHeader(sec.title) && Trimmed(sec.title) && Safe(sec.title)
    && (forall k :: 0 <= k < |sec.items| ==> WellFormedItem(sec.items[k]))
    && (sec.items != [] ==> !LooksLikeHeader(ItemText(sec.items[0])))
  }

  predicate WellFormedMenu(m: Menu) {
    forall k :: 0 <= k < |m| ==> WellFormedSection(m[k])
  }

  // ---------------------------------------------------------------------
  // Safe and trimmed lines

  lemma SafeAppend(a: string, b: string)
    requires Safe(a) && Safe(b)
    ensures Safe(a + b)
  {
    assert forall k :: |a| <= k < |a| + |b| ==> (a + b)[k] == b[k - |a|];
  }

  /** The facts a well-formed price carries. */
  lemma PriceShape(p: string)
    requires TrailingPriceStart(p) == Some(0)
    ensures |p| >= 3 && IsDigit(p[0]) && Trimmed(p) && '-' !in p
  {
    var d := WsStartBefore(p, |p| - 2);
    assert DigitStartBefore(p, d) == 0;
    forall k | 0 <= k < |p| ensures p[k] != '-' {
      if k < d {
        assert IsDigit(p[k]);
      } else if k < |p| - 2 {
        assert IsWs(p[k]);
      }
    }
  }

  lemma ItemHeadFacts(it: Item)
    requires WellFormedItem(it)
    ensures ItemHead(it) != [] && Trimmed(ItemHead(it)) && Safe(ItemHead(it))
    ensures ItemHead(it)[0] == it.name[0]
  {
    if it.ingredients != [] {
      SafeAppend(it.name, " - ");
      SafeAppend(it.name + " - ", it.ingredients);
      var h := ItemHead(it);
      assert h[|h| - 1] == it.ingredients[|it.ingredients| - 1];
    }
  }

  lemma ItemTextFacts(it: Item)
    requires WellFormedItem(it)
    ensures ItemText(it) != [] && Trimmed(ItemText(it)) && Safe(ItemText(it))
    ensures ItemText(it)[0] == it.name[0]
  {
    ItemHeadFacts(it);
    if it.price != [] {
      PriceShape(it.price);
      SafeAppend(ItemHead(it), " ");
      SafeAppend(ItemHead(it) + " ", it.price);
      var t := ItemText(it);
      assert t[|t| - 1] == it.price[|it.price| - 1];
    }
  }

  /** A line of the printed text: no newline or other character pre-processing touches, and trimmed. */
  predicate GoodLine(l: string) {
    Safe(l) && Trimmed(l)
  }

  predicate AllGood(lines: seq<string>) {
    forall k :: 0 <= k < |lines| ==> GoodLine(lines[k])
  }

  lemma AllGoodAppend(a: seq<string>, b: seq<string>)
    requires AllGood(a) && AllGood(b)
    ensures AllGood(a + b)
  {
    assert forall k :: |a| <= k < |a| + |b| ==> (a + b)[k] == b[k - |a|];
  }

  lemma {:induction false} AddonLinesGood(addons: seq<string>)
    requires forall k :: 0 <= k < |addons| ==> WellFormedAddon(addons[k])
    ensures AllGood(AddonLines(addons))
  {
    if addons != [] {
      var a := addons[0];
      SafeAppend("- ", a);
      assert ("- " + a)[|"- " + a| - 1] == a[|a| - 1];
      AddonLinesGood(addons[1..]);
      AllGoodAppend(["- " + a], AddonLines(addons[1..]));
    }
  }

  lemma {:induction false} ItemLinesGood(items: seq<Item>)
    requires forall k :: 0 <= k < |items| ==> WellFormedItem(items[k])
    ensures AllGood(ItemLines(items))
  {
    if items != [] {
      ItemTextFacts(items[0]);
      AddonLinesGood(items[0].addons);
      ItemLinesGood(items[1..]);
      AllGoodAppend([ItemText(items[0])], AddonLines(items[0].addons));
      AllGoodAppend([ItemText(items[0])] + AddonLines(items[0].addons), ItemLines(items[1..]));
    }
  }

  lemma SectionLinesGood(sec: Section)
    requires WellFormedSection(sec)
    ensures AllGood(SectionLines(sec))
  {
    if sec.items != [] {
      ItemLinesGood(sec.items);
      AllGoodAppend([""], ItemLines(sec.items));
      AllGoodAppend([sec.title], [""] + ItemLines(sec.items));
    }
  }

  lemma {:induction false} DocLinesGood(m: Menu)
    requires m != [] && WellFormedMenu(m)
    ensures AllGood(DocLines(m))
  {
    SectionLinesGood(m[0]);
    if |m| > 1 {
      DocLinesGood(m[1..]);
      AllGoodAppend(SectionLines(m[0]), [""]);
      AllGoodAppend(SectionLines(m[0]) + [""], DocLines(m[1..]));
    }
  }

  /** The last printed line is not blank. */
  lemma LastLineNotBlank(m: Menu)
    requires m != [] && WellFormedSection(m[|m| - 1])
    ensures DocLines(m)[|DocLines(m)| - 1] != []
  {
    DocLinesLast(m);
    SectionLinesLast(m[|m| - 1]);
  }

  /** The last printed line is the last line of the last section. */
  lemma {:induction false} DocLinesLast(m: Menu)
    requires m != []
    ensures var d := DocLines(m); var l := SectionLines(m[|m| - 1]); d[|d| - 1] == l[|l| - 1]
  {
    if |m| > 1 {
      DocLinesLast(m[1..]);
      var rest := DocLines(m[1..]);
      assert DocLines(m) == (SectionLines(m[0]) + [""]) + rest;
      assert m[1..][|m[1..]| - 1] == m[|m| - 1];
    }
  }

  lemma SectionLinesLast(sec: Section)
    requires WellFormedSection(sec)
    ensures SectionLines(sec)[|SectionLines(sec)| - 1] != []
  {
    if sec.items != [] {
      forall k | 0 <= k < |sec.items| ensures ItemText(sec.items[k]) != [] {
        ItemTextFacts(sec.items[k]);
      }
      ItemLinesLast(sec.items);
      var tail := ItemLines(sec.items);
      assert SectionLines(sec) == [sec.title, ""] + tail;
      assert SectionLines(sec)[|SectionLines(sec)| - 1] == tail[|tail| - 1];
    } else {
      assert SectionLines(sec) == [sec.title];
    }
  }

  lemma {:induction false} ItemLinesLast(items: seq<Item>)
    requires items != [] && forall k :: 0 <= k < |items| ==> ItemText(items[k]) != []
    ensures |ItemLines(items)| > 0 && ItemLines(items)[|ItemLines(items)| - 1] != []
  {
    var it := items[0];
    var head := [ItemText(it)] + AddonLines(it.addons);
    assert ItemLines(items) == head + ItemLines(items[1..]);
    if |items| > 1 {
      assert forall k :: 0 <= k < |items[1..]| ==> items[1..][k] == items[k + 1];
      ItemLinesLast(items[1..]);
      LastOfAppend(head, ItemLines(items[1..]));
    } else {
      assert ItemLines(items) == head;
      assert ItemText(items[0]) != [];
      if it.addons != [] {
        AddonLinesLast(it.addons);
        LastOfAppend([ItemText(it)], AddonLines(it.addons));
      }
    }
  }

  lemma LastOfAppend<T>(a: seq<T>, b: seq<T>)
    requires b != []
    ensures (a + b)[|a + b| - 1] == b[|b| - 1]
  {
  }

  lemma {:induction false} AddonLinesLast(addons: seq<string>)
    requires addons != []
    ensures AddonLines(addons)[|addons| - 1] != []
  {
    if |addons| > 1 {
      AddonLinesLast(addons[1..]);
    }
  }

  // ---------------------------------------------------------------------
  // The joined text

  /** Every character of a join is the separator or a character of a piece. */
  lemma {:induction false} JoinChars(pieces: seq<string>, sep: char, c: char)
    requires |pieces| >= 1
    requires c != sep && forall k :: 0 <= k < |pieces| ==> c !in pieces[k]
    ensures c !in Join(pieces, sep)
  {
    if |pieces| > 1 {
      JoinChars(pieces[1..], sep, c);
    }
  }

  /** A join starts where its first piece starts and ends where its last piece ends. */
  lemma {:induction false} JoinEnds(pieces: seq<string>, sep: char)
    requires |pieces| >= 1 && pieces[0] != [] && pieces[|pieces| - 1] != []
    ensures var j := Join(pieces, sep);
      j != [] && j[0] == pieces[0][0] && j[|j| - 1] == pieces[|pieces| - 1][|pieces[|pieces| - 1]| - 1]
  {
    if |pieces| > 1 {
      var rest := pieces[1..];
      if |rest| > 1 {
        assert rest[0] == pieces[1];
        JoinEndsTail(rest, sep);
      }
    }
  }

  lemma {:induction false} JoinEndsTail(pieces: seq<string>, sep: char)
    requires |pieces| >= 1 && pieces[|pieces| - 1] != []
    ensures var j := Join(pieces, sep);
      j != [] && j[|j| - 1] == pieces[|pieces| - 1][|pieces[|pieces| - 1]| - 1]
  {
    if |pieces| > 1 {
      JoinEndsTail(pieces[1..], sep);
    }
  }

  lemma SafeLinesExcept(lines: seq<string>, c: char)
    requires AllGood(lines) && !SafeChar(c)
    ensures forall k :: 0 <= k < |lines| ==> c !in lines[k]
  {
    forall k | 0 <= k < |lines| ensures c !in lines[k] {
      assert Safe(lines[k]);
    }
  }

  /** The printed text passes through the pre-processing unchanged and splits into the printed lines. */
  lemma LinesOfFormat(m: Menu)
    requires m != [] && WellFormedMenu(m)
    ensures Lines(Format(m)) == DocLines(m)
  {
    var lines := DocLines(m);
    DocLinesGood(m);
    assert Prepare(Format(m)) == Format(m) by {
      FormatPrepared(m);
    }
    assert SplitOn(Format(m), '\n') == lines by {
      SafeLinesExcept(lines, '\n');
      SplitJoin(lines, '\n');
    }
    TrimEachKeeps(lines);
  }

  lemma TrimEachKeeps(lines: seq<string>)
    requires AllGood(lines)
    ensures TrimEach(lines) == lines
  {
    TrimEachAt(lines);
    forall k | 0 <= k < |lines| ensures TrimEach(lines)[k] == lines[k] {
      assert GoodLine(lines[k]);
    }
  }

  /** The printed text has no marker, nothing to clean and nothing to trim. */
  lemma FormatPrepared(m: Menu)
    requires m != [] && WellFormedMenu(m) && AllGood(DocLines(m))
    ensures Prepare(Format(m)) == Format(m)
  {
    var s := Format(m);
    assert !Contains(s, Marker) by {
      FormatLacks(m, ':');
      NotContainsByChar(s, Marker, ':');
    }
    assert Clean(s) == s by {
      FormatLacks(m, '\r');
      FormatLacks(m, '\U{A0}');
      FormatLacks(m, '\U{200B}');
    }
    assert Trimmed(s) by {
      FirstLineNotBlank(m);
      LastLineNotBlank(m);
      FormatTrimmed(m);
    }
  }

  /** A character no line may hold is absent from the printed text. */
  lemma FormatLacks(m: Menu, c: char)
    requires m != [] && AllGood(DocLines(m)) && !SafeChar(c) && c != '\n'
    ensures c !in Format(m)
  {
    SafeLinesExcept(DocLines(m), c);
    JoinChars(DocLines(m), '\n', c);
  }

  lemma FormatTrimmed(m: Menu)
    requires m != [] && AllGood(DocLines(m))
    requires DocLines(m)[0] != [] && DocLines(m)[|DocLines(m)| - 1] != []
    ensures Trimmed(Format(m))
  {
    JoinTrimmed(DocLines(m));
  }

  /** The first printed line, a header, is not blank. */
  lemma FirstLineNotBlank(m: Menu)
    requires m != [] && WellFormedSection(m[0])
    ensures DocLines(m)[0] != []
  {
    assert LooksLikeHeader(m[0].title);
  }

  /** Lines whose first and last are trimmed and not blank join into a trimmed text. */
  lemma JoinTrimmed(lines: seq<string>)
    requires |lines| >= 1 && lines[0] != [] && lines[|lines| - 1] != [] && AllGood(lines)
    ensures Trimmed(Join(lines, '\n'))
  {
    JoinEnds(lines, '\n');
    assert GoodLine(lines[0]) && GoodLine(lines[|lines| - 1]);
  }

  // ---------------------------------------------------------------------
  // Reading an item line back

  lemma UnifyDashesKeeps(s: string)
    requires Safe(s)
    ensures UnifyDashes(s) == s
  {
  }

  /** An ` - ` separator before a non-whitespace character is left as it is. */
  lemma CollapseKeepsSeparator(c: string)
    requires c == [] || !IsWs(c[0])
    ensures CollapseDashes(" - " + c) == " - " + CollapseDashes(c)
  {
    var s := " - " + c;
    assert LeadingWs(s) == 1;
    assert s[2..] == " " + c;
    assert LeadingWs(" " + c) == 1;
    assert TrimStart(s[2..]) == c;
  }

  /** A printed item line is its own `normalized` form. */
  lemma NormalizedItemText(it: Item)
    requires WellFormedItem(it)
    ensures NormalizeDashes(ItemText(it)) == ItemText(it)
  {
    var line := ItemText(it);
    assert UnifyDashes(line) == line by {
      ItemTextFacts(it);
      UnifyDashesKeeps(line);
    }
    var tail := PriceTail(it);
    assert '-' !in tail by {
      if it.price != [] {
        PriceShape(it.price);
      }
    }
    ItemTextShape(it);
    if it.ingredients == [] {
      CollapseWithoutHyphen(line);
    } else {
      CollapseSeparated(it.name, it.ingredients + tail);
    }
  }

  /** The part of an item line after its head. */
  function PriceTail(it: Item): string {
    if it.price == [] then [] else " " + it.price
  }

  lemma ItemTextShape(it: Item)
    ensures it.ingredients == [] ==> ItemText(it) == it.name + PriceTail(it)
    ensures it.ingredients != [] ==> ItemText(it) == it.name + (" - " + (it.ingredients + PriceTail(it)))
  {
  }

  /** `name - c` with a hyphen-free name and a hyphen-free `c` is left as it is. */
  lemma CollapseSeparated(name: string, c: string)
    requires name != [] && '-' !in name && Trimmed(name)
    requires c != [] && !IsWs(c[0]) && '-' !in c
    ensures CollapseDashes(name + (" - " + c)) == name + (" - " + c)
  {
    assert CollapseDashes(name + (" - " + c)) == name + CollapseDashes(" - " + c) by {
      CollapseKeepsPrefix(name, " - " + c);
    }
    assert CollapseDashes(" - " + c) == " - " + CollapseDashes(c) by {
      CollapseKeepsSeparator(c);
    }
    CollapseWithoutHyphen(c);
  }

  /** The start of the whitespace run ending in `q` is found the same way in `p + q` while the run stays in `q`. */
  lemma {:induction false} WsStartShift(p: string, q: string, e: nat)
    requires e <= |q| && WsStartBefore(q, e) > 0
    ensures WsStartBefore(p + q, |p| + e) == |p| + WsStartBefore(q, e)
    decreases e
  {
    var s := p + q;
    assert s[|p| + e - 1] == q[e - 1];
    if IsWs(q[e - 1]) {
      WsStartShift(p, q, e - 1);
    }
  }

  /** The same for a digit run; it may reach the start of `q` when `p` does not end in a digit. */
  lemma {:induction false} DigitStartShift(p: string, q: string, e: nat)
    requires e <= |q| && (DigitStartBefore(q, e) > 0 || p == [] || !IsDigit(p[|p| - 1]))
    ensures DigitStartBefore(p + q, |p| + e) == |p| + DigitStartBefore(q, e)
    decreases e
  {
    var s := p + q;
    if e == 0 {
      if p != [] {
        assert s[|p| - 1] == p[|p| - 1];
      }
    } else {
      assert s[|p| + e - 1] == q[e - 1];
      if IsDigit(q[e - 1]) {
        DigitStartShift(p, q, e - 1);
      }
    }
  }

  /** A whole-string price after a text that does not end in a digit is found where it starts. */
  lemma PriceAfter(x: string, p: string)
    requires TrailingPriceStart(p) == Some(0)
    requires x == [] || !IsDigit(x[|x| - 1])
    ensures TrailingPriceStart(x + p) == Some(|x|)
  {
    PriceOfWhole(p);
    var d := WsStartBefore(p, |p| - 2);
    ShiftParts(x, p, d);
    PriceFound(x + p, |x| + d, |x|);
  }

  /** The run of `kr`, the whitespace before it starting at `d`, and the digits before that starting at `j`. */
  predicate PriceParts(s: string, d: nat, j: nat) {
    && |s| >= 2 && KrAt(s, |s| - 2) && d <= |s| - 2 && WsStartBefore(s, |s| - 2) == d
    && d > 0 && IsDigit(s[d - 1]) && DigitStartBefore(s, d) == j
  }

  /** What `TrailingPriceStart` sees in a string that is a price from its first character. */
  lemma PriceOfWhole(p: string)
    requires TrailingPriceStart(p) == Some(0)
    ensures |p| >= 2 && PriceParts(p, WsStartBefore(p, |p| - 2), 0)
  {
  }

  /** `TrailingPriceStart` from the pieces of its match. */
  lemma PriceFound(s: string, d: nat, j: nat)
    requires PriceParts(s, d, j)
    ensures TrailingPriceStart(s) == Some(j)
  {
  }

  /** The pieces of a price that is the whole of `p` sit `|x|` further on in `x + p`. */
  lemma ShiftParts(x: string, p: string, d: nat)
    requires PriceParts(p, d, 0)
    requires x == [] || !IsDigit(x[|x| - 1])
    ensures PriceParts(x + p, |x| + d, |x|)
  {
    KrShift(x, p);
    WsStartShift(x, p, |p| - 2);
    DigitShift(x, p, d - 1);
    DigitStartShift(x, p, d);
  }

  lemma KrShift(x: string, p: string)
    requires |p| >= 2 && KrAt(p, |p| - 2)
    ensures |x + p| - 2 == |x| + (|p| - 2) && KrAt(x + p, |x + p| - 2)
  {
    var s := x + p;
    assert s[|s| - 2] == p[|p| - 2] && s[|s| - 1] == p[|p| - 1];
  }

  lemma DigitShift(x: string, p: string, i: nat)
    requires i < |p| && IsDigit(p[i])
    ensures IsDigit((x + p)[|x| + i])
  {
    assert (x + p)[|x| + i] == p[i];
  }

  /** The first ` - ` in `name - rest` is the one after the name. */
  lemma SeparatorAfterName(name: string, rest: string)
    requires name != [] && '-' !in name && Trimmed(name)
    ensures IndexOf(name + " - " + rest, " - ") == Some(|name|)
  {
    var s := name + " - " + rest;
    assert s[|name|..|name| + 3] == " - ";
    assert OccursAt(s, " - ", |name|);
    forall j | 0 <= j < |name| ensures !OccursAt(s, " - ", j) {
      if j + 1 < |name| {
        assert s[j + 1] == name[j + 1] && name[j + 1] in name;
      } else {
        assert s[j] == name[|name| - 1];
      }
    }
  }

  /** The split of a `normalized` line, given where its price and its separator are. */
  lemma SplitWhen(line: string, head: string, name: string, price: string, ingredients: string)
    requires price == [] ==> line == head && TrailingPriceStart(line).None?
    requires price != [] ==> |head| + 1 <= |line| && TrailingPriceStart(line) == Some(|head| + 1)
    requires price != [] ==> Trim(line[..|head| + 1]) == head && Trim(line[|head| + 1..]) == price
    requires ingredients == [] ==> head == name && IndexOf(head, " - ").None?
    requires ingredients != [] ==> |name| + 3 <= |head| && IndexOf(head, " - ") == Some(|name|)
    requires ingredients != [] ==> Trim(head[..|name|]) == name && Trim(head[|name| + 3..]) == ingredients
    ensures SplitNormalized(line) == Item(name, price, ingredients, [])
  {
  }

  lemma SliceAppend(a: string, b: string)
    ensures (a + b)[..|a|] == a && (a + b)[|a|..] == b
  {
  }

  /** The priced line `head price` has its price found after the head, and both read back trimmed. */
  lemma PricedLine(head: string, price: string)
    requires head != [] && Trimmed(head) && WellFormedPrice(price)
    ensures var line := head + " " + price;
      && TrailingPriceStart(line) == Some(|head| + 1)
      && Trim(line[..|head| + 1]) == head && Trim(line[|head| + 1..]) == price
  {
    PriceShape(price);
    assert (head + " ")[|head|] == ' ';
    PriceAfter(head + " ", price);
    SliceAppend(head + " ", price);
    TrimDropsTrailingWs(head, " ");
  }

  /** `name - ingredients` has its first separator after the name. */
  lemma SeparatedHead(name: string, ingredients: string)
    requires name != [] && '-' !in name && Trimmed(name) && Trimmed(ingredients)
    ensures var head := name + " - " + ingredients;
      && IndexOf(head, " - ") == Some(|name|)
      && Trim(head[..|name|]) == name && Trim(head[|name| + 3..]) == ingredients
  {
    SeparatorAfterName(name, ingredients);
    var head := name + " - " + ingredients;
    assert head[..|name|] == name;
    assert head[|name| + 3..] == ingredients;
  }

  /** A printed item line splits into the item's name, price and ingredients. */
  lemma SplitItemText(it: Item)
    requires WellFormedItem(it)
    ensures SplitItem(ItemText(it)) == Item(it.name, it.price, it.ingredients, [])
  {
    var line := ItemText(it);
    var head := ItemHead(it);
    assert SplitItem(line) == SplitNormalized(line) by {
      NormalizedItemText(it);
    }
    ItemHeadFacts(it);
    if it.price != [] {
      assert line == head + " " + it.price;
      PricedLine(head, it.price);
    } else {
      assert line == head;
    }
    if it.ingredients == [] {
      assert head == it.name;
      NotContainsByChar(it.name, " - ", '-');
    } else {
      assert head == it.name + " - " + it.ingredients;
      SeparatedHead(it.name, it.ingredients);
    }
    SplitWhen(line, head, it.name, it.price, it.ingredients);
  }

  // ---------------------------------------------------------------------
  // The walk over the printed lines

  /** The last section, its earlier items and its last item, taken apart. */
  lemma AppendAddonShape(p: Menu, t: string, items: seq<Item>, it: Item, a: string)
    ensures AppendAddon(p + [Section(t, items + [it])], a) == p + [Section(t, items + [it.(addons := it.addons + [a])])]
  {
    var s := p + [Section(t, items + [it])];
    assert s[..|s| - 1] == p;
    assert (items + [it])[..|items|] == items;
  }

  lemma AppendItemShape(p: Menu, t: string, items: seq<Item>, it: Item)
    ensures AppendItem(p + [Section(t, items)], it) == p + [Section(t, items + [it])]
  {
    var s := p + [Section(t, items)];
    assert s[..|s| - 1] == p;
  }

  /** The addon lines of an item add the addons to it, in order. */
  lemma {:induction false} WalkAddons(st: ParseState, p: Menu, t: string, items: seq<Item>, it: Item, addons: seq<string>)
    requires st.hasItem && st.sections == p + [Section(t, items + [it])]
    requires forall k :: 0 <= k < |addons| ==> WellFormedAddon(addons[k])
    ensures Walk(st, AddonLines(addons)).sections == p + [Section(t, items + [it.(addons := it.addons + addons)])]
    ensures Walk(st, AddonLines(addons)).hasItem
    decreases |addons|
  {
    if addons == [] {
      assert it.addons + addons == it.addons;
    } else {
      var it' := it.(addons := it.addons + [addons[0]]);
      var st' := Step(st, "- " + addons[0]);
      WalkAddonsHead(st, p, t, items, it, addons);
      WalkAddons(st', p, t, items, it', addons[1..]);
      AddonsAssoc(it, addons);
    }
  }

  /** The first addon line is read, then the others from there. */
  lemma WalkAddonsHead(st: ParseState, p: Menu, t: string, items: seq<Item>, it: Item, addons: seq<string>)
    requires st.hasItem && st.sections == p + [Section(t, items + [it])]
    requires addons != [] && forall k :: 0 <= k < |addons| ==> WellFormedAddon(addons[k])
    ensures var st' := Step(st, "- " + addons[0]);
      && st'.hasItem && st'.sections == p + [Section(t, items + [it.(addons := it.addons + [addons[0]])])]
      && Walk(st, AddonLines(addons)) == Walk(st', AddonLines(addons[1..]))
    ensures forall k :: 0 <= k < |addons[1..]| ==> WellFormedAddon(addons[1..][k])
  {
    var a := addons[0];
    AddonLineStep(st, p, t, items, it, a);
    assert AddonLines(addons) == ["- " + a] + AddonLines(addons[1..]);
    WalkCons(st, "- " + a, AddonLines(addons[1..]));
    assert forall k :: 0 <= k < |addons[1..]| ==> addons[1..][k] == addons[k + 1];
  }

  lemma AddonsAssoc(it: Item, addons: seq<string>)
    requires addons != []
    ensures it.(addons := it.addons + [addons[0]]).(addons := it.addons + [addons[0]] + addons[1..])
      == it.(addons := it.addons + addons)
  {
    assert addons == [addons[0]] + addons[1..];
    AppendAssoc(it.addons, [addons[0]], addons[1..]);
  }

  /** One addon line adds its text to the last item. */
  lemma AddonLineStep(st: ParseState, p: Menu, t: string, items: seq<Item>, it: Item, a: string)
    requires st.hasItem && st.sections == p + [Section(t, items + [it])]
    requires WellFormedAddon(a)
    ensures Step(st, "- " + a).hasItem
    ensures Step(st, "- " + a).sections == p + [Section(t, items + [it.(addons := it.addons + [a])])]
  {
    var line := "- " + a;
    assert line[1] == ' ' && line[0] == '-' && '-' in line;
    assert Classify(line, st.prevBlank) == Addon;
    AddonTextOfMarked(a);
    AppendAddonShape(p, t, items, it, a);
  }

  /** The lines of one item add the item with its addons to the current section. */
  lemma WalkItem(st: ParseState, p: Menu, t: string, items: seq<Item>, it: Item)
    requires Valid(st) && st.sections == p + [Section(t, items)]
    requires WellFormedItem(it)
    requires st.prevBlank ==> !LooksLikeHeader(ItemText(it))
    ensures Walk(st, [ItemText(it)] + AddonLines(it.addons)).sections == p + [Section(t, items + [it])]
  {
    var line := ItemText(it);
    var bare := Item(it.name, it.price, it.ingredients, []);
    var st' := Step(st, line);
    assert st'.hasItem && st'.sections == p + [Section(t, items + [bare])] by {
      ItemLineStep(st, p, t, items, it);
    }
    WalkCons(st, line, AddonLines(it.addons));
    WalkAddons(st', p, t, items, bare, it.addons);
    assert bare.addons + it.addons == it.addons;
    assert bare.(addons := bare.addons + it.addons) == it;
  }

  /** The item line of a well-formed item adds it, without addons, to the current section. */
  lemma ItemLineStep(st: ParseState, p: Menu, t: string, items: seq<Item>, it: Item)
    requires Valid(st) && st.sections == p + [Section(t, items)]
    requires WellFormedItem(it)
    requires st.prevBlank ==> !LooksLikeHeader(ItemText(it))
    ensures Step(st, ItemText(it)).hasItem
    ensures Step(st, ItemText(it)).sections == p + [Section(t, items + [Item(it.name, it.price, it.ingredients, [])])]
  {
    var line := ItemText(it);
    assert Classify(line, st.prevBlank) == ItemLine by {
      ItemTextFacts(it);
      assert it.name[0] in it.name;
    }
    SplitItemText(it);
    AppendItemShape(p, t, items, Item(it.name, it.price, it.ingredients, []));
  }

  /** The lines of the items add them to the current section. */
  lemma {:induction false} WalkItems(st: ParseState, p: Menu, t: string, done: seq<Item>, items: seq<Item>)
    requires Valid(st) && st.sections == p + [Section(t, done)]
    requires forall k :: 0 <= k < |items| ==> WellFormedItem(items[k])
    requires st.prevBlank && items != [] ==> !LooksLikeHeader(ItemText(items[0]))
    ensures Walk(st, ItemLines(items)).sections == p + [Section(t, done + items)]
    decreases |items|
  {
    if items == [] {
      assert done + items == done;
    } else {
      var it := items[0];
      var first := [ItemText(it)] + AddonLines(it.addons);
      var rest := items[1..];
      assert ItemLines(items) == first + ItemLines(rest);
      assert forall k :: 0 <= k < |rest| ==> WellFormedItem(rest[k]) by {
        forall k | 0 <= k < |rest| ensures WellFormedItem(rest[k]) {
          assert rest[k] == items[k + 1];
        }
      }
      WalkItem(st, p, t, done, it);
      WalkAppend(st, first, ItemLines(rest));
      var st' := Walk(st, first);
      ItemLinesEnd(st, it);
      WalkItems(st', p, t, done + [it], rest);
      assert Walk(st, ItemLines(items)) == Walk(st', ItemLines(rest));
      assert items == [it] + rest;
      AppendAssoc(done, [it], rest);
    }
  }

  lemma AppendAssoc<T>(a: seq<T>, b: seq<T>, c: seq<T>)
    ensures a + b + c == a + (b + c)
  {
  }

  /** After the lines of an item `prevBlank` is false. */
  lemma ItemLinesEnd(st: ParseState, it: Item)
    requires Valid(st) && WellFormedItem(it)
    ensures !Walk(st, [ItemText(it)] + AddonLines(it.addons)).prevBlank
  {
    var first := [ItemText(it)] + AddonLines(it.addons);
    ItemTextFacts(it);
    if it.addons != [] {
      AddonLinesLast(it.addons);
      assert first[|first| - 1] == AddonLines(it.addons)[|it.addons| - 1];
    }
    WalkLastLine(st, first);
  }

  /** After a non-empty run of lines whose last line is not blank, `prevBlank` is false. */
  lemma {:induction false} WalkLastLine(st: ParseState, lines: seq<string>)
    requires Valid(st) && lines != [] && lines[|lines| - 1] != []
    ensures !Walk(st, lines).prevBlank
    decreases |lines|
  {
    if |lines| > 1 {
      WalkLastLine(Step(st, lines[0]), lines[1..]);
    } else {
      assert Walk(st, lines) == Walk(Step(st, lines[0]), []);
    }
  }

  /** The lines of a section, read after a blank line, add that section. */
  lemma WalkSection(st: ParseState, sec: Section)
    requires Valid(st) && st.prevBlank && WellFormedSection(sec)
    ensures Walk(st, SectionLines(sec)).sections == st.sections + [sec]
  {
    var t := sec.title;
    assert Classify(t, true) == Header;
    var st1 := Step(st, t);
    assert st1.sections == st.sections + [Section(t, [])];
    if sec.items == [] {
      assert Walk(st, SectionLines(sec)) == Walk(st1, []);
    } else {
      var st2 := Step(st1, "");
      assert st2.sections == st.sections + [Section(t, [])] && st2.prevBlank;
      WalkItems(st2, st.sections, t, [], sec.items);
      assert SectionLines(sec) == [t] + ([""] + ItemLines(sec.items));
      assert Walk(st, SectionLines(sec)) == Walk(st1, [""] + ItemLines(sec.items));
      assert Walk(st1, [""] + ItemLines(sec.items)) == Walk(st2, ItemLines(sec.items));
      assert [] + sec.items == sec.items;
    }
  }

  lemma WalkCons(st: ParseState, line: string, rest: seq<string>)
    requires Valid(st)
    ensures Walk(st, [line] + rest) == Walk(Step(st, line), rest)
  {
    assert ([line] + rest)[0] == line && ([line] + rest)[1..] == rest;
  }

  lemma BlankStep(st: ParseState)
    requires Valid(st)
    ensures Step(st, []) == st.(prevBlank := true)
  {
  }

  /** The printed sections, read after a blank line, are added in order. */
  lemma WalkDoc(st: ParseState, m: Menu)
    requires Valid(st) && st.prevBlank && m != [] && WellFormedMenu(m)
    ensures Walk(st, DocLines(m)).sections == st.sections + m
  {
    forall k | 0 <= k < |m| ensures ReadsBack(m[k]) {
      forall st': ParseState | Valid(st') && st'.prevBlank
        ensures Walk(st', SectionLines(m[k])).sections == st'.sections + [m[k]]
      {
        WalkSection(st', m[k]);
      }
    }
    WalkSections(st, m);
  }

  /** Reading the lines of `sec` after a blank line adds `sec`. */
  ghost predicate ReadsBack(sec: Section) {
    forall st: ParseState :: Valid(st) && st.prevBlank ==>
      Walk(st, SectionLines(sec)).sections == st.sections + [sec]
  }

  lemma {:induction false} WalkSections(st: ParseState, m: Menu)
    requires Valid(st) && st.prevBlank && m != []
    requires forall k :: 0 <= k < |m| ==> ReadsBack(m[k])
    ensures Walk(st, DocLines(m)).sections == st.sections + m
    decreases |m|
  {
    var st1 := Walk(st, SectionLines(m[0]));
    assert ReadsBack(m[0]);
    if |m| == 1 {
      assert st.sections + [m[0]] == st.sections + m;
    } else {
      var rest := m[1..];
      var st2 := Step(st1, "");
      WalkDocCons(st, m);
      assert forall k :: 0 <= k < |rest| ==> rest[k] == m[k + 1];
      WalkSections(st2, rest);
      BlankStep(st1);
      SectionsCons(st.sections, m);
    }
  }

  /** Reading the printed sections: the first section, the blank line, then the others. */
  lemma WalkDocCons(st: ParseState, m: Menu)
    requires Valid(st) && |m| > 1
    ensures Walk(st, DocLines(m)) == Walk(Step(Walk(st, SectionLines(m[0])), ""), DocLines(m[1..]))
  {
    var a, rest := SectionLines(m[0]), DocLines(m[1..]);
    assert DocLines(m) == a + [""] + rest;
    AppendAssoc(a, [""], rest);
    WalkAppend(st, a, [""] + rest);
    WalkCons(Walk(st, a), "", rest);
  }

  lemma SectionsCons(prefix: Menu, m: Menu)
    requires m != []
    ensures prefix + [m[0]] + m[1..] == prefix + m
  {
    assert m == [m[0]] + m[1..];
    AppendAssoc(prefix, [m[0]], m[1..]);
  }

  // ---------------------------------------------------------------------
  // Round trip

  /** Parsing the printed text of a well-formed menu gives the menu back. */
  lemma ParseFormat(m: Menu)
    requires WellFormedMenu(m)
    ensures Parse(Format(m)) == m
  {
    if m == [] {
      ParseOfEmpty();
    } else {
      LinesOfFormat(m);
      WalkDoc(Start, m);
    }
  }

  lemma ParseOfEmpty()
    ensures Parse([]) == []
  {
    assert Prepare([]) == [];
    assert Lines([]) == [[]];
    assert Walk(Start, [[]]) == Walk(Step(Start, []), []);
  }

  /** Distinct well-formed menus are printed differently. */
  lemma FormatInjective(m1: Menu, m2: Menu)
    requires WellFormedMenu(m1) && WellFormedMenu(m2)
    ensures Format(m1) == Format(m2) <==> m1 == m2
  {
    if Format(m1) == Format(m2) {
      ParseFormat(m1);
      ParseFormat(m2);
    }
  }

  // ---------------------------------------------------------------------
  // A worked example

  const PizzaMenu: Menu := [Section("Pizza", [Item("Margherita", "95 kr", "tomato, cheese", ["extra cheese 15 kr"])])]

  /** A section title, an item with ingredients and a price, and one addon line. */
  lemma PizzaExample()
    ensures Parse("Pizza\n\n" + "Margherita - tomato, cheese 95 kr" + "\n" + "- extra cheese 15 kr") == PizzaMenu
  {
    PizzaWellFormed();
    ParseFormat(PizzaMenu);
    PizzaText();
  }

  lemma PizzaWellFormed()
    ensures WellFormedMenu(PizzaMenu)
  {
    PizzaItemWellFormed();
    PizzaFirstItem();
    PizzaTitle();
    assert WellFormedSection(PizzaMenu[0]);
  }

  lemma PizzaTitle()
    ensures LooksLikeHeader("Pizza") && Trimmed("Pizza") && Safe("Pizza")
  {
  }

  lemma PizzaFirstItem()
    ensures !LooksLikeHeader(ItemText(PizzaMenu[0].items[0]))
  {
    PizzaItemText();
    assert "Margherita - tomato, cheese 95 kr"[11] == '-';
  }

  lemma PizzaItemText()
    ensures ItemText(PizzaMenu[0].items[0]) == "Margherita - tomato, cheese 95 kr"
  {
  }

  lemma PizzaItemWellFormed()
    ensures WellFormedItem(PizzaMenu[0].items[0])
  {
    PizzaPrice();
    PizzaAddon();
    PizzaNames();
  }

  lemma PizzaPrice()
    ensures WellFormedPrice("95 kr")
  {
    assert WsStartBefore("95 kr", 3) == 2;
    assert DigitStartBefore("95 kr", 2) == 0;
  }

  lemma PizzaAddon()
    ensures WellFormedAddon("extra cheese 15 kr")
  {
  }

  lemma PizzaNames()
    ensures '-' !in "Margherita" && Trimmed("Margherita") && Safe("Margherita")
    ensures '-' !in "tomato, cheese" && Trimmed("tomato, cheese") && Safe("tomato, cheese")
  {
  }

  lemma PizzaText()
    ensures Format(PizzaMenu) == "Pizza\n\n" + "Margherita - tomato, cheese 95 kr" + "\n" + "- extra cheese 15 kr"
  {
    var lines := ["Pizza", "", "Margherita - tomato, cheese 95 kr", "- extra cheese 15 kr"];
    PizzaLines();
    assert Join(lines[3..], '\n') == lines[3];
    assert Join(lines[2..], '\n') == lines[2] + "\n" + lines[3];
    assert Join(lines[1..], '\n') == "\n" + lines[2] + "\n" + lines[3];
    assert Join(lines, '\n') == "Pizza\n\n" + lines[2] + "\n" + lines[3];
  }

  lemma PizzaLines()
    ensures DocLines(PizzaMenu) == ["Pizza", "", "Margherita - tomato, cheese 95 kr", "- extra cheese 15 kr"]
  {
    var it := PizzaMenu[0].items[0];
    var l2 := "Margherita - tomato, cheese 95 kr";
    var l3 := "- extra cheese 15 kr";
    PizzaItemText();
    assert it.addons[1..] == [];
    assert "- " + it.addons[0] == l3;
    assert AddonLines(it.addons) == [l3];
    assert ItemLines(PizzaMenu[0].items) == [l2, l3];
  }
}
