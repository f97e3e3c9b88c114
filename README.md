# August Bistro dynamic menu, modelled in Dafny

The bistro's web page shows a dynamic lunch menu. Its text is a published
Google document, read back through a readability proxy. `helpers/menu.js`
covers three jobs, and this project models each of them:

- **`menuHash`** is a small change digest: 32-bit FNV-1a over the UTF-16
  code units of a string, printed in hexadecimal. In this project it is
  `ChangeDetector`. It models the JavaScript operators exactly: ToUint32,
  ToInt32, `^`, `Math.imul`, `>>> 0` and `toString(16)`.
- **`renderStructuredMenu`** turns the proxy's text into sections, and each
  section into priced items with ingredients and addons. In this project
  that is `MenuText` (the JavaScript string primitives it uses), `MenuParser`
  (the parser) and `MenuProperties` (what the parser promises). The DOM it
  builds is replaced by a `Menu` value.
  - `Parse` is the `forEach` walk written as a fold of `Step` over the
    trimmed lines.
  - `RenderStructuredMenu` is the same walk as the loop the source runs,
    proved to compute `Parse`.
  - `MenuFormat` is an independent printer. Parsing what it prints gives
    back any well-formed menu, and the printer is injective.
- **`loadMenuFromGoogleDoc`** is in `RefreshScheduler`.
  - The network is replaced by the replies it would give: the reply to the
    first request, and the replies to the three re-polls.
  - The page is a `PageState` value, held by a `MenuPage` object. It has:
    - whether each of the loading, dynamic and fallback elements is shown
      (the negation of its `hidden` property);
    - the stored copy under the cache key;
    - the text last rendered into the dynamic element, whose content is
      then `MenuParser.Parse` of that text;
    - a request counter and the list of storage writes.
  - `MenuPage.LoadMenu` is proved to compute the function `Load`. The rules
    the loader promises are lemmas about `Load`, stated for any digest
    function. `DigestEqual` ties the page's digest comparisons to FNV-1a
    values.

Where the code and its description differ, the model follows the code.

- `text.split(marker)[1]` keeps only the text between the first and the
  second `Markdown Content:`, not all the text after the marker.
  `SecondPiece` states this, and `ParseWithMarker` says the menu is the
  menu of that piece.
- Zero-width spaces are deleted rather than turned into spaces.
- A stored empty string counts as no cache for display (`if (cached)`), but
  as a real value in `cached !== latest`. So an empty cache plus an empty
  fresh text shows the dynamic element with nothing rendered by this load,
  and starts the re-polling. `ShownIsStored` and `EmptyCacheEmptyText`
  state both halves of this.

## Model

| member | source | states |
|---|---|---|
| ChangeDetector.MenuHash | helpers/menu.js:8-12 | the loop over the code units returns `Digest(s)`, the lower-case hexadecimal rendering of 32-bit FNV-1a over the UTF-16 code units of `s` |
| ChangeDetector.JsRoundIsMix | helpers/menu.js:10 | one JavaScript round (`h ^= c`, then `Math.imul(h, 16777619) >>> 0`) on a 32-bit unsigned `h` is the FNV-1a round `((h xor c) * prime) mod 2^32` |
| ChangeDetector.FnvSnoc | helpers/menu.js:10 | adding one more code unit applies exactly one more round to the digest so far |
| ChangeDetector.FoldAppend | helpers/menu.js:10 | hashing a concatenation continues from the state reached after its first part |
| ChangeDetector.Utf16OfBmp | helpers/menu.js:10 | for characters in the Basic Multilingual Plane, the units `charCodeAt` yields are the character codes, one per character |
| ChangeDetector.Hex | helpers/menu.js:11 | `toString(16)` gives at least one lower-case hexadecimal digit, with no leading zero unless the value is 0 |
| ChangeDetector.HexRoundTrip | helpers/menu.js:11 | reading the hexadecimal rendering back gives the number |
| ChangeDetector.HexInjective | helpers/menu.js:11 | two numbers have the same hexadecimal rendering if and only if they are equal |
| ChangeDetector.DigestShape | helpers/menu.js:8-12 | `menuHash` returns one to eight lower-case hexadecimal digits, with no leading zero unless the digest is `0` |
| ChangeDetector.DigestEqual | helpers/menu.js:86-88 | two digests are equal if and only if the FNV-1a values of the two strings are equal |
| ChangeDetector.DigestOfEmpty | helpers/menu.js:9 | the digest of the empty string, which is what the loader hashes when nothing is cached, is the offset basis `811c9dc5` |
| MenuText.Trim | helpers/menu.js:126-132 | `trim` leaves a string with no `\s` at either end, no longer than the input; it leaves a trimmed string unchanged and gives the empty string for all-whitespace input |
| MenuText.TrimIsInfix | helpers/menu.js:126-132 | `trim` gives the slice of the string between its maximal leading and trailing whitespace runs |
| MenuText.TrimKeepsChars | helpers/menu.js:126-132 | `trim` adds no character |
| MenuText.TrimWsAround | helpers/menu.js:130 | whitespace added on either side does not change what `trim` gives |
| MenuText.SplitOn | helpers/menu.js:132 | `split("\n")` yields at least one piece, no piece contains the separator, and joining the pieces with it gives the text back |
| MenuText.SplitUnique | helpers/menu.js:132 | the separator-free pieces that join to a text are unique: they are what `split` returns |
| MenuText.SplitJoin | helpers/menu.js:132 | splitting the join of separator-free pieces gives the pieces back |
| MenuText.IndexFrom | helpers/menu.js:213 | `indexOf` returns the first occurrence at or after the start index, or nothing when there is no occurrence |
| MenuText.Substitute | helpers/menu.js:126-129 | a global replace of one character removes it when the replacement lacks it, leaves text without it as it is, and adds no character other than those of the replacement |
| MenuText.SubstituteChar | helpers/menu.js:126-129 | on one character the replace gives the replacement when it is the replaced character and the character itself otherwise |
| MenuText.SubstituteAppend | helpers/menu.js:126-129 | the replace of a concatenation is the concatenation of the replaces, so with `SubstituteChar` each character is mapped on its own, in order |
| MenuParser.SecondPiece | helpers/menu.js:122-123 | `split(marker)[1]` is the prefix of the text after the first marker that ends at the next occurrence of the marker, or at the end of the text when there is none; it contains no marker |
| MenuParser.Clean | helpers/menu.js:126-129 | no carriage return, non-breaking space or zero-width space remains; text without them is unchanged |
| MenuParser.CleanChar | helpers/menu.js:126-129 | carriage returns and zero-width spaces are deleted, a non-breaking space becomes a plain space, and every other character is kept |
| MenuParser.CleanAppend | helpers/menu.js:126-129 | the clean-up of a concatenation is the concatenation of the clean-ups, so with `CleanChar` it maps each character on its own, in order |
| MenuParser.Prepare | helpers/menu.js:121-130 | the text the lines are split from is trimmed and holds no carriage return, non-breaking space or zero-width space |
| MenuParser.TrimEachAt | helpers/menu.js:132 | `map(s => s.trim())` trims every piece in place |
| MenuParser.IsPriceLineSpec | helpers/menu.js:145 | `isPriceLine` holds if and only if some substring matches `\d+\s*kr\b` with the `i` flag |
| MenuParser.IsAddonLineSpec | helpers/menu.js:146 | `isAddonLine` holds if and only if the line starts with a hyphen followed by one or more `\s` characters, as `^-\s+` requires |
| MenuParser.LooksLikeHeaderSpec | helpers/menu.js:147-151 | `looksLikeHeader` holds if and only if the line is non-empty, has no hyphen and no match of the price pattern; its addon test is implied by the hyphen test |
| MenuParser.AddonTextStrips | helpers/menu.js:181 | stripping `^-+\s*` removes a whole run of hyphens and the whole whitespace run after it, leaving exactly the text that follows; with no whitespace after the hyphens, the text cannot start with a hyphen, because the run is maximal |
| MenuParser.AddonTextOfMarked | helpers/menu.js:181 | stripping `^-+\s*` from `"- " + a` gives back `a` whenever `a` does not start with whitespace; a hyphen after the space stays (`"- -x"` gives `"-x"`) |
| MenuParser.UnifyDashes | helpers/menu.js:202-203 | every en dash and em dash becomes a hyphen and every other character is kept, position by position |
| MenuParser.CollapseSpacesHyphens | helpers/menu.js:202-204 | after the replace of `\s*-\s*` by `" - "`, every hyphen has a space on both sides |
| MenuParser.CollapseWithoutHyphen | helpers/menu.js:202-204 | the replace leaves a line without hyphens unchanged |
| MenuParser.CollapseSeparator | helpers/menu.js:204 | one match of `\s*-\s*`, a hyphen with the whole whitespace runs on both sides of it, becomes exactly `" - "` and the replace goes on with the text after it |
| MenuParser.CollapseKeepsPrefix | helpers/menu.js:204 | text without hyphens that does not end in whitespace is copied unchanged in front of what the replace makes of the rest |
| MenuParser.CollapseOneHyphen | helpers/menu.js:204 | a single hyphen between two hyphen-free texts, the first not ending and the second not starting in whitespace, becomes `" - "` and nothing else changes |
| MenuParser.CollapseInWord | helpers/menu.js:204 | the replace also splits a hyphenated word: `x-y` becomes `x - y` for any two non-whitespace characters other than the hyphen, so `"a-b"` becomes `"a - b"` |
| MenuParser.TrailingPriceSpec | helpers/menu.js:207-210 | `match(/(\d+)\s*kr\b$/i)` finds the leftmost suffix made of digits, whitespace and a final `kr`; when it finds none, no suffix has that form |
| MenuParser.SplitAtFirstSeparator | helpers/menu.js:207-215 | an unpriced line is split at its FIRST ` - `: the name is the trimmed text before it and the ingredients the trimmed text after it, even when that text holds more separators |
| MenuParser.SplitPricedAtFirstSeparator | helpers/menu.js:207-215 | a priced line has the trimmed trailing price match as its price, and the trimmed text before the price is split at its first ` - ` in the same way |
| MenuParser.SplitWithoutSeparator | helpers/menu.js:207-215 | an unpriced line without ` - ` is all name: no price and empty ingredients |
| MenuParser.SplitPricedWithoutSeparator | helpers/menu.js:207-215 | a priced line whose text before the price has no ` - ` has that trimmed text as its name and empty ingredients |
| MenuParser.SplitNamedPriced | helpers/menu.js:207-215 | the normalized line `name - ingredients price` with a hyphen-free name splits into exactly that name, ingredients and price |
| MenuParser.SplitItemPrice | helpers/menu.js:202-210 | an item's price is empty exactly when `(\d+)\s*kr\b$` matches nothing in the normalized line; otherwise it is the matched suffix itself, of the form digits, whitespace, `kr` |
| MenuFormat.SplitItemText | helpers/menu.js:201-215 | the split of the line `name - ingredients price` gives back the name, the price and the ingredients, for every well-formed item |
| MenuParser.ClassifyKinds | helpers/menu.js:155-199 | a line is blank exactly when empty, a header exactly when it follows a blank line and passes the header test, an addon exactly when it passes the addon test whatever came before, and an item otherwise |
| MenuParser.Step | helpers/menu.js:153-248 | one callback keeps `lastItemEl` pointing at an item of the current section, and sets `prevBlank` exactly when the line is empty |
| MenuParser.WalkAppend | helpers/menu.js:153-248 | walking two runs of lines is walking the second from where the first stopped |
| MenuParser.RenderStructuredMenu | helpers/menu.js:120-251 | the loop over the lines builds `Parse(rawText)` |
| MenuProperties.HeaderStep | helpers/menu.js:158-174 | a header line is non-empty, follows a blank line, and has no hyphen, price or addon mark; it opens a section titled with exactly that line and clears the current item |
| MenuProperties.AddonStep | helpers/menu.js:177-186 | an addon line is appended, stripped of its hyphens and whitespace, to the last item of the current section; with no current item it is dropped; nothing else changes |
| MenuProperties.ItemStep | helpers/menu.js:189-247 | an item line is appended to the last section, or to a new `Meny` section when none exists yet, and becomes the current item; the other sections are unchanged |
| MenuProperties.WalkPrefixStep | helpers/menu.js:153 | the state after `n + 1` lines is one callback applied to the state after `n` lines |
| MenuProperties.ParseSectionTitles | helpers/menu.js:153-199 | every section title of `Parse(raw)` passes the header test and is either `Meny` or a line of the input |
| MenuProperties.ParseTitles | helpers/menu.js:153-248 | the section titles are the header lines in order, preceded by one `Meny` exactly when an item line comes before every header |
| MenuProperties.ParseBlank | helpers/menu.js:126-155 | input made only of whitespace and zero-width spaces yields no sections |
| MenuProperties.LinesAreClean | helpers/menu.js:126-132 | every line `Lines` yields is trimmed and has no newline, carriage return, non-breaking space or zero-width space |
| MenuProperties.ParseWithMarker | helpers/menu.js:122-123 | with the marker present, the menu is the menu of the text between the first and the second marker |
| MenuProperties.TrimCleanTrim | helpers/menu.js:123-130 | trimming before the clean-up makes no difference once the result is trimmed again |
| MenuFormat.ParseFormat | helpers/menu.js:120-251 | parsing the printed text of a well-formed menu gives the menu back |
| MenuFormat.FormatInjective | helpers/menu.js:120-251 | two well-formed menus print the same text if and only if they are equal |
| MenuFormat.PizzaExample | helpers/menu.js:153-248 | a header, an item line `Margherita - tomato, cheese 95 kr` and an addon line parse to one section with that item, its price, its ingredients and its addon |
| RefreshScheduler.FirstChange | helpers/menu.js:104-110 | the index of the first re-poll reply that is a success with a differing hash; none of the earlier replies is one; with no result, no reply is one |
| RefreshScheduler.Repoll | helpers/menu.js:93-116 | re-polling changes no visibility and makes at most one request per reply |
| RefreshScheduler.ShowCachedFacts | helpers/menu.js:35-51 | `ShowCached` renders a non-empty stored copy and shows the dynamic menu in place of the loading message; otherwise only the loading message shows; storage, writes and requests are untouched and the fallback is hidden |
| RefreshScheduler.MenuPage.constructor | helpers/menu.js:39-40 | a page whose storage holds the given copy, with nothing rendered, requested or written |
| RefreshScheduler.MenuPage.SetItem | helpers/menu.js:75 | only the storage changes: it now holds the text, which is appended to the writes |
| RefreshScheduler.MenuPage.Render | helpers/menu.js:74 | only the rendered text changes |
| RefreshScheduler.MenuPage.ShowCachedCopy | helpers/menu.js:35-51 | shows loading and hides the others; when a non-empty copy is stored it is rendered, loading is hidden and the dynamic menu shown |
| RefreshScheduler.MenuPage.DigestDiffers | helpers/menu.js:106 | comparing `menuHash(text)` with the digest of `latest` reports a difference exactly when their FNV-1a values differ |
| RefreshScheduler.MenuPage.RepollUntilChanged | helpers/menu.js:89-116 | the `tick` rounds leave the page as `Repoll` says: up to three requests, stopping at the first success whose digest differs, which is rendered and stored |
| RefreshScheduler.MenuPage.LoadMenu | helpers/menu.js:22-118 | the whole loader leaves the page as `Load` says |
| RefreshScheduler.FallbackRule | helpers/menu.js:65-68 | the fallback ends up visible if and only if the first request fails and no non-empty copy is stored |
| RefreshScheduler.VisibilityRule | helpers/menu.js:35-83 | loading ends hidden, and exactly one of the dynamic menu and the fallback is visible |
| RefreshScheduler.FailureRule | helpers/menu.js:65-68 | a failed first request (`Load` is then `AfterFailure`) writes nothing and makes one request; a stored copy stays visible; without one the fallback shows and nothing new is rendered |
| RefreshScheduler.AfterFirstFacts | helpers/menu.js:71-83 | after the first response (`AfterFirst`) the dynamic menu is shown and storage holds the response; it is written and rendered only when it differs from the stored string |
| RefreshScheduler.RepollStep | helpers/menu.js:93-114 | one tick makes one request, and then either stores the changed reply or goes on with the remaining ticks |
| RefreshScheduler.RepollOutcome | helpers/menu.js:93-116 | re-polling ends after the first changed reply, with one request per reply up to it and that reply stored; with none it only counts requests |
| RefreshScheduler.RepollStopsAt | helpers/menu.js:106-109 | at the first changed reply re-polling stores its text and stops |
| RefreshScheduler.RepollRunsOut | helpers/menu.js:113 | without a changed reply all the ticks run, and they change nothing but the request count |
| RefreshScheduler.Attempts | helpers/menu.js:88-90 | the number of re-polls is at most the number of replies |
| RefreshScheduler.LoadRepollOutcome | helpers/menu.js:71-117 | after a successful first request `Load` gives the page `AfterFirst` leaves, then the re-poll outcome when the hashes agreed: the first changed reply stored after one request per reply up to it, or three more requests and nothing else changed |
| RefreshScheduler.RequestsRule | helpers/menu.js:85-117 | a load makes one request plus the re-polls: at most `1 + 3` requests, and more than one only when the cache's hash equals the fresh text's hash |
| RefreshScheduler.WritesRule | helpers/menu.js:71-108 | storage is written with the fresh text only when it differs from the stored string, and with a re-polled text only for the first one whose hash differs; a failed request writes nothing |
| RefreshScheduler.StorageIsLastWrite | helpers/menu.js:71-108 | a load adds at most two writes, and storage holds the last value written, or its old value when nothing was written |
| RefreshScheduler.ShownIsStored | helpers/menu.js:39-108 | whenever the dynamic menu is visible it shows the stored copy, unless an empty stored string meets an empty fresh text |
| RefreshScheduler.EmptyCacheEmptyText | helpers/menu.js:41-88 | an empty stored string and an empty fresh text start the re-polling and show the dynamic element without rendering or writing anything |

## Left out

- The DOM: elements are replaced by whether each is shown (the negation of
  its `hidden` property). The built menu
  markup is replaced by the `Menu` value. The `if (el)` null checks in
  `show`/`hide`, and the early return when the container is missing
  (helpers/menu.js:135), are not modelled.
- `fetchWithTimeout` and the network are replaced by replies given in advance, including the
  7000 ms timeout, the response body read (`res.text()`), and the
  `Date.now()` cache-busting URL.
- The 3000 ms delay between ticks and the asynchronous scheduling of `tick`
  are left out. Ticks are modelled as running one after another once the
  first response has been handled.
- `RefreshScheduler.MenuPage.LoadMenu`: always takes exactly three re-poll
  replies, of which only as many as the ticks ask for are used.
- The `catch` blocks around rendering and storing (helpers/menu.js:46-50,
  76-79) and the tick's `catch {}` for thrown errors: the model's rendering
  never throws. There is no storage quota, so `setItem` always succeeds. A
  failed or timed-out re-poll is a reply that is not `Ok`.
- The storage is one in-memory value. Persistence across page loads and
  other keys are not part of this model. Neither is `console.error`.
- `initMenuLazy` (helpers/menu.js:254-271) and the other helpers of the
  repository are not part of this model.
- `MenuFormat.ParseFormat`: stated only for well-formed menus. Those are
  menus whose fields are trimmed and non-empty where the layout needs it.
  The fields must also avoid newlines, colons (so the marker cannot
  appear), en and em dashes, and the characters the clean-up changes.
  Names and ingredients must avoid hyphens, and titles and item lines must
  avoid price-like text where the line tests would read them differently.
- Characters are Dafny `char`s, meaning Unicode scalar values. Unpaired
  surrogates in a JavaScript string are not modelled, and `Utf16` encodes
  each character as JavaScript does.
