# alphaListNav in Dafny

A model of the classification and selection logic of `AlphaListNav`, a
browser widget. It takes the items of a list, sorts them into alphabetical
buckets, redraws them as one group per bucket, and puts a letter bar in front
of the groups. Clicking an entry of the bar shows the matching group. The
model covers these parts, and proves what each one promises:

- **Text extraction** (`TextExtract`). This is `_getText`: the recursive walk
  over text, CDATA, element, document and fragment nodes, and over array-like
  values of nodes.
- **Prefix matcher** (`Prefix`). The string rules in `prefixes` are compiled
  into one global, case-insensitive expression. `PrefixMatcher` is a class
  whose `lastIndex` field mirrors that expression's state.
- **Bucketizer** (`Bucketize`). This is `_getAlphaObj`: each item's key comes
  from its classification character, the items are pushed into a sparse map,
  and `initText` is added when `initHidden` is set.
- **New list** (`Display`). The `sort` comparator, `_getHeading`, the rule
  that emits a heading only when it is non-empty, and the ordered groups with
  the trailing `no-match` group.
- **Navigation bar** (`Navigation`). The candidate characters built with
  `unshift`, and the enabled/disabled/`no-match` policy of
  `_generateAlphaNav`. Entries are records `(caption, status, filter)`, not
  HTML.
- **Selection** (`Selection`). The class `AlphaListNav` holds the set of
  active group ids and active bar entries. `initAlphaListNav` computes the
  initial state and `Click` is the click listener.

The source's DOM lookups can throw. `querySelector` returns null when the bar
has no such entry. `find` returns undefined when no letter is populated. An id
selector such as `#0` is not valid CSS. The model makes each of these an
explicit `Failure`, reported together with the state as it was when the
exception was thrown. When `initAlphaListNav` throws, `init` never reaches
`addEventListener`, and the exception propagates out of `new AlphaListNav(...)`
to the caller. The model makes a choice here: its constructor still returns
the navigator, records the failure in `initFailure` and leaves `listening`
false, so that later clicks do nothing. That is what happens under the
default options: `includeAll` activates every group and then
looks up the "all" entry, which the bar never contains (`DefaultsFail`).

Some behaviours of the code that the model keeps as written:

- **Prefix rules are not anchored.** The expression has no `^`, so a rule
  matches anywhere in the text. "Meet The Beatles" with the rule `The` goes
  under `b` (`UnanchoredPrefix`).
- **Only the first metacharacter is escaped.** A rule is escaped at its first
  regular-expression metacharacter only. The model admits only rules with at
  most one metacharacter; these all stay literal. The restriction also
  excludes some rules that would stay literal, such as `a]]` or `}}`, whose
  leftover `]`, `}` or `{` the regular-expression grammar still reads as a
  literal character.
- **The separator is always appended.** Every rule gets `\s` appended, so a
  rule written with its own trailing space needs two white-space characters.
  "The Beatles" with the rule `"The "` goes under `t` (`TrailingSpaceRule`).
- **The digits come out ascending.** They are unshifted in descending order,
  which leaves them ascending in the bar.
- **`-` is never a candidate.** Its bar entry is commented out, and so is the
  "all" (`*`) entry. The `-` bucket is still created and shown as a group.
- **The shared `lastIndex` is a defect.** Because the expression is global,
  its `lastIndex` carries from one item to the next; see "## Findings". The
  rest of the model uses the corrected, per-item classification:
  `GetAlphaObj` resets `lastIndex` before each item.

## Model

| member | source | states |
|---|---|---|
| TextExtract.GetText | alphaListNav.js:110-135 | The `while`/`for` walk computes exactly `TextOf`. Text and CDATA nodes give their value. Element, document and fragment nodes give a string `textContent`, or else their children's texts in order. Array-like values give their items' texts up to the first missing one. Every other node type gives "". |
| TextExtract.GetItemsText | alphaListNav.js:115-120 | The `while` loop over the items of an array-like value returns the text of its items up to the first missing one. |
| TextExtract.GetChildrenText | alphaListNav.js:126-129 | The `for` loop over the siblings returns the concatenation of their texts. |
| TextExtract.ChildrenTextAppend | alphaListNav.js:127-129 | The text of a run of siblings is the text of its first part followed by the text of its second part. |
| TextExtract.CommentsContributeNothing | alphaListNav.js:121-134 | Inside an element with no string `textContent`, removing a comment (or any other non-text node type) leaves the element's text unchanged. |
| TextExtract.ArrayTextStopsAtFirstMissing | alphaListNav.js:117-120 | An array-like value yields the in-order concatenation of its items' texts up to its first missing item, whatever follows that item. |
| Strings.LexLessIrreflexive | alphaListNav.js:265-268 | The character-by-character `<` on strings (JavaScript's order on the ASCII bucket keys) is irreflexive. |
| Strings.LexLessTransitive | alphaListNav.js:265-268 | That order is transitive. |
| Strings.LexLessTotal | alphaListNav.js:265-268 | On distinct strings, exactly one of `a < b` and `b < a` holds. |
| Prefix.MatchAtIsFirstRule | alphaListNav.js:41-47 | The alternation `rule1\s\|rule2\s\|…` fails at a position iff no rule followed by one white-space character matches there. Otherwise it takes the first matching rule in the given order, and the match ends after that rule and its white-space character. |
| Prefix.NoMatchPastEnd | alphaListNav.js:41 | No rule can match at or past the end of the text, since a match needs a trailing white-space character. |
| Prefix.FindIsLeftmost | alphaListNav.js:199-202 | `exec` finds the leftmost position at or after its start where the alternation matches. When it finds none, no position from there on matches. |
| Prefix.SearchMissFromStart | alphaListNav.js:201 | A text with no match from position 0 has none from any later start. |
| Prefix.PrefixOffset | alphaListNav.js:199-208 | The classification character is at most one character. With no rules, or no match anywhere, it is the first character. Otherwise it is the character right after the leftmost match, wherever that match lies: the search is unanchored. |
| Prefix.PrefixMatcher.constructor | alphaListNav.js:37-47 | The compiled expression holds the rules and starts with `lastIndex` 0. |
| Prefix.PrefixMatcher.Exec | alphaListNav.js:201 | Global `exec` searches from `lastIndex`. On a match, `lastIndex` becomes the end of the match, which lies after the old `lastIndex`. On failure, `lastIndex` is reset to 0 and nothing matches from the old `lastIndex` on. |
| Prefix.PrefixMatcher.Classify | alphaListNav.js:199-205 | Gives the character at the new `lastIndex` after a match, or the first character after a miss, and leaves `lastIndex` as `exec` does. When `lastIndex` was 0 on entry, the result is the stateless `ClassChar` of the text. |
| Bucketize.KeyRule | alphaListNav.js:202-217 | The key is always one character out of `a`-`z`, `0`-`9`, `_` and `-`. A letter gives itself lower-cased. A digit gives `_` with `concatenateNums` and itself without. Anything else, including "" past the end of the text, gives `-`. |
| Bucketize.Keys | alphaListNav.js:187-195 | Every item gets exactly one key slot (None when its text is empty). |
| Bucketize.Positions | alphaListNav.js:219-223 | The positions gathered for a key are positions of the input. |
| Bucketize.PositionsSpec | alphaListNav.js:219-223 | The positions gathered for a key are exactly the items with that key, in strictly increasing order. |
| Bucketize.ScanKeys | alphaListNav.js:187-217 | The as-written scan, which threads `lastIndex` from item to item, gives one key slot per item. |
| Bucketize.ScanStepFresh | alphaListNav.js:199-208 | With `lastIndex` 0, one step of the scan classifies the item on its own. |
| Bucketize.ScanAgreesWithoutMatches | alphaListNav.js:199-205 | When no rule matches any item's text, the as-written scan gives the per-item keys, whatever `lastIndex` it starts with. |
| Bucketize.BeatlesUnderB | alphaListNav.js:199-208 | "The Beatles" with the rule `The` goes under `b`. |
| Bucketize.UnanchoredPrefix | alphaListNav.js:199-202 | "Meet The Beatles" with the rule `The` also goes under `b`: the match need not start the text. |
| Bucketize.MeetTheBeatlesSearch | alphaListNav.js:199-202 | `exec` with the rule `The` on "Meet The Beatles" finds its match at position 5, ending at 9. |
| Bucketize.TrailingSpaceRule | alphaListNav.js:40-41 | "The Beatles" with the rule `"The "` goes under `t`: the appended `\s` asks for a second white-space character. |
| Bucketize.SharedMatcherMisclassifies | alphaListNav.js:199-205 | Two items "The Beatles" are keyed `b` then `t` by the as-written scan, but `b` and `b` when each is classified on its own. |
| Bucketize.BeatlesSearches | alphaListNav.js:199-205 | `exec` with the rule `The` on "The Beatles" ends its match at 4 from a fresh start, and finds nothing when started at 4. |
| Bucketize.ClassifyItem | alphaListNav.js:188-217 | Classifying one item on the shared matcher gives the key and the new `lastIndex` of one as-written scan step. |
| Bucketize.GetAlphaObj | alphaListNav.js:186-234 | The `reduce` that pushes each item into its bucket, with `lastIndex` reset before each item, builds exactly `AlphaObj`: the per-item buckets, plus `initText` when `initHidden` is set. |
| Bucketize.EveryEntryLandsOnce | alphaListNav.js:187-226 | An item with empty text lands in no bucket. An item with non-empty text lands in the bucket of its key, which exists, and in no other. |
| Bucketize.BucketsInOrder | alphaListNav.js:219-223 | Each bucket other than `initText` holds exactly the items of its key, in input order, and is not empty. |
| Bucketize.BucketKeys | alphaListNav.js:209-232 | Every key is `initText` or one character out of `a`-`z`, `0`-`9`, `_` and `-`. No digit key exists with `concatenateNums`. `initText` is present iff `initHidden` is set, and then holds only the placeholder, whatever `initHiddenText` is. No bucket is empty. |
| Display.CompareTotal | alphaListNav.js:262-270 | On distinct keys the comparator never returns 0 and is antisymmetric, so exactly one key of each pair comes first. |
| Display.CompareIrreflexive | alphaListNav.js:262-270 | No key comes before itself. |
| Display.CompareTransitive | alphaListNav.js:262-270 | The comparator's order is transitive. |
| Display.DashLast | alphaListNav.js:263-264 | `-` sorts after every other key. |
| Display.InitTextBetweenIAndJ | alphaListNav.js:265-268 | `initText` sorts between `i` and `j`. |
| Display.SortKeysSpec | alphaListNav.js:261-270 | Sorting keeps exactly the keys it is given (a permutation). On distinct keys the result is strictly increasing in comparator order. |
| Display.SortedKeysOf | alphaListNav.js:261-270 | Sorting the keys `Object.keys` lists gives every key of the map exactly once, in strictly increasing comparator order. |
| Display.InsertSpec | alphaListNav.js:262-270 | Inserting a new key into a sorted run of keys keeps it sorted and adds just that key. |
| Display.SortedUnique | alphaListNav.js:261-270 | Two strictly sorted sequences of the same keys are equal, so every correct sort of distinct keys gives the same order. |
| Display.HeadingOfKey | alphaListNav.js:236-281 | On bucket keys, the heading is empty only for `initText`. A letter gives its upper case, a digit itself, `_` gives "0 - 9", `-` gives "Others", and `*` gives `allText`. An `h3` is emitted iff `showLetterHeadings` is set and the key is not `initText`. |
| Display.ObjectKeys | alphaListNav.js:261 | `Object.keys` lists every key of the map exactly once. |
| Display.GenerateNewList | alphaListNav.js:257-304 | The new list has one wrapper per bucket, holding its key as id, its heading if shown and its items. The wrappers are in strictly increasing comparator order, and the `no-match` group holding `noMatchText` comes last. |
| Display.DistinctCount | alphaListNav.js:261 | A repeat-free list of exactly a set's elements has as many entries as the set. |
| Navigation.AtoZSpec | alphaListNav.js:357-361 | `_getArrayAtoZ` gives 26 strings: exactly the one-character upper-case letters, in increasing order. |
| Navigation.GetCandidates | alphaListNav.js:311-318 | The `unshift` loop gives `["_"]`, or "0".."9" in ascending order, or nothing, depending on `includeNums` and `concatenateNums`, followed by "A".."Z". |
| Navigation.CandidateChars | alphaListNav.js:311-322 | Every candidate is one character: a letter, a digit or `_`. `-` and `*` never are. |
| Navigation.UnderscoreCandidate | alphaListNav.js:312-317 | `_` is a candidate iff `includeNums` and `concatenateNums` are both set. |
| Navigation.DigitCandidates | alphaListNav.js:312-315 | A digit is a candidate iff `includeNums` is set without `concatenateNums`. |
| Navigation.LetterCandidates | alphaListNav.js:311 | Every upper-case letter is a candidate. |
| Navigation.NoCandidateFor | alphaListNav.js:311-322 | No candidate lower-cases to `-`, nor to a digit when `includeNums` is unset. |
| Navigation.CandidatesDistinct | alphaListNav.js:311-318 | No two candidates share a lower case. |
| Navigation.NavPolicy | alphaListNav.js:326-350 | A candidate is populated iff its lower case is a bucket key, and then its filter is that key and its label is "0 - 9" for `_`. Otherwise, with `flagDisabled` and `removeDisabled` it is omitted, with `flagDisabled` alone it is disabled without a filter, and without `flagDisabled` it points at `no-match` under its raw text. |
| Navigation.NavFollowsCandidates | alphaListNav.js:324-351 | The entries follow the candidates in order, one per shown candidate. Every candidate is shown unless disabled entries are removed, and then exactly the populated ones are. |
| Navigation.NavEntriesOfShown | alphaListNav.js:324-351 | The bar has exactly one entry per shown candidate, in candidate order: the entry the policy gives it. |
| Navigation.ShownAll | alphaListNav.js:338-350 | Unless `flagDisabled` and `removeDisabled` are both set, every candidate gets an entry. |
| Navigation.ShownPopulated | alphaListNav.js:338-341 | With `flagDisabled` and `removeDisabled` both set, exactly the populated candidates get an entry. |
| Navigation.FiltersFromCandidates | alphaListNav.js:324-351 | Every filter other than `no-match` is the lower case of some candidate. |
| Navigation.FiltersTarget | alphaListNav.js:324-351 | Every filter names a bucket or `no-match`, and none is `*`. |
| Selection.FindButtonFrom | alphaListNav.js:142-166 | The lookup `a[data-filter="f"]` gives the first entry with filter `f`, or reports that none has it. |
| Selection.SelectorOfKey | alphaListNav.js:101-149 | On bucket keys, the escaped id selector of the click listener is valid for every key but a digit. The unescaped one of `initAlphaListNav` is valid for every key but a digit and `-`. |
| Selection.NoMatchSelector | alphaListNav.js:101 | The escaped selector `#no\-match` is valid. |
| Selection.NameCharsAreName | alphaListNav.js:101 | A run of CSS name characters is a CSS name. |
| Selection.NameAppend | alphaListNav.js:101 | Name characters in front of a CSS name still form a name. |
| Selection.NoAllControl | alphaListNav.js:319-337 | The bar never has an entry with filter `*`. |
| Selection.ButtonExists | alphaListNav.js:326-333 | A candidate with a bucket always has an entry with that bucket as its filter. |
| Selection.InitAllLetterFails | alphaListNav.js:141-142 | With `initLetter` `*` and `includeAll`, the lookup of the "all" entry throws before anything is active. |
| Selection.InitLetterUnknown | alphaListNav.js:146-150 | Any other `initLetter` whose lower case has no bucket leaves everything inactive, without an error. |
| Selection.InitLetterFound | alphaListNav.js:146-149 | An `initLetter` naming a letter bucket makes exactly that group and one entry with its filter active. |
| Selection.NoEntryWithoutCandidate | alphaListNav.js:148 | When no candidate has the lower case `l`, the bar has no entry with filter `l`. |
| Selection.InitLetterCases | alphaListNav.js:146-150 | For every `initLetter` (but `*` with `includeAll`) whose lower case `l` has a bucket: with no candidate of lower case `l`, the entry lookup throws and nothing is active. Otherwise one entry with filter `l` is active, and then either the selector `#l` is invalid and throws with no group active, or exactly the group `l` is active. |
| Selection.InitLetterNoEntry | alphaListNav.js:146-148 | A digit bucket with `includeNums` unset, or the `-` bucket, has no bar entry: an `initLetter` naming it throws on the entry lookup and nothing is active. |
| Selection.InitLetterDigit | alphaListNav.js:146-149 | With `includeNums` set and `concatenateNums` unset, an `initLetter` naming a digit bucket activates its entry, then throws on the invalid selector `#0`..`#9` before any group is active. |
| Selection.InitLetterUnderscore | alphaListNav.js:146-149 | With `includeNums` and `concatenateNums` set, an `initLetter` `_` naming the digits bucket activates exactly that group and one entry with filter `_`. |
| Selection.InitHiddenCase | alphaListNav.js:152-155 | With no `initLetter` and `initHidden` set, only `initText` is active, and only when `initHiddenText` is truthy. No entry is active. |
| Selection.InitIncludeAllCase | alphaListNav.js:157-160 | With no `initLetter` or `initHidden` and `includeAll` set, every wrapper is active (`no-match` is not), then the lookup of the "all" entry throws. |
| Selection.DefaultsFail | alphaListNav.js:157-160 | The default options (lines 6-22) take that branch: every group is active and the initialisation throws. |
| Selection.FirstLetterFromSpec | alphaListNav.js:163 | `find` gives the first letter from a position on that has a bucket, or none. |
| Selection.FirstLetterSpec | alphaListNav.js:163 | The first letter is the smallest lower-case letter with a bucket. Digits, `_` and `-` are never considered, and with no letter bucket there is none. |
| Selection.InitFirstLetterCase | alphaListNav.js:161-167 | Otherwise, exactly the first populated letter's group and one entry with its filter are active. With no populated letter, `find` gives undefined and the code throws. |
| Selection.ClickWithoutFilter | alphaListNav.js:82 | A click on the bar itself or on a disabled entry changes nothing. |
| Selection.ClickCases | alphaListNav.js:84-102 | After a click on an entry with a filter, that entry is the only active one. `*` activates every group but `no-match`. A filter with a valid selector activates exactly its group, `no-match` included. A digit filter throws on its selector and leaves no group active. |
| Selection.ClickKeepsWellMarked | alphaListNav.js:82-103 | Every click keeps at most one entry active, and only groups that exist. |
| Selection.InitialWellMarked | alphaListNav.js:137-170 | The initial state has at most one active entry, and only existing groups are active. |
| Selection.NewListIds | alphaListNav.js:271-302 | The ids of the new list's children are the wrapper ids in display order, then `no-match`. |
| Selection.AlphaListNav.constructor | alphaListNav.js:4-76 | The navigator holds `AlphaObj` of its items, the wrappers in comparator order over exactly the bucket keys, `no-match` last, and the bar of its candidates. Its active state is `Initial` for these, and it listens for clicks iff initialisation did not throw. |
| Selection.AlphaListNav.ActivateAllWrappers | alphaListNav.js:143-159 | Adds every wrapper id to the active groups and changes nothing else. |
| Selection.AlphaListNav.InitAlphaListNav | alphaListNav.js:137-170 | On markup where nothing is active, the branches make active exactly what `Initial` says, and fail as it says. |
| Selection.AlphaListNav.DeactivateButtons | alphaListNav.js:85-87 | Removes `active` from every entry of the bar and changes nothing else. |
| Selection.AlphaListNav.DeactivateGroups | alphaListNav.js:89-91 | Removes `active` from every child of the new list and changes nothing else. |
| Selection.AlphaListNav.ActivateAllButNoMatch | alphaListNav.js:96-99 | Activates every child of the new list except `no-match`, and changes nothing else. |
| Selection.AlphaListNav.Click | alphaListNav.js:79-104 | Before the listener is attached a click changes nothing. After that, the new state and error are exactly `ClickStep` of the old state. The navigator stays well marked. |

## Left out

- DOM construction and insertion are not modelled: `createElement`, the markup strings, inline styles, `cloneNode`, `replaceChild` and `insertBefore`. The model keeps the data they consume: the groups, in order, with their headings and members, and the bar's entries.
- Event wiring: `addEventListener` and `preventDefault` are left out. A click is the position of the clicked entry; a click on the bar itself has no position.
- The listener's target check `!e.target.dataset.filter`: only the bar itself and its entries are modelled as targets.
- `_isDomElement`, the `getElementById` lookup of the list, the `console.error` when the list is missing, and `_getListItems` are left out; the model starts from the list's items.
- Prefix rules given as `RegExp` objects are left out: they need a regular-expression engine.
- Non-string, non-`RegExp` rules, which become `undefined` alternatives, are left out.
- Prefix.LiteralRule: rules with two or more metacharacters are left out. Line 40 escapes only the first one, so the rest may act as regular-expression syntax. The restriction also leaves out some rules that would stay literal, such as `a]]` or `}}`.
- The `filterSelector` query is a parameter: each item carries the node the query would find, or None.
- `includeOther` and `showCounts` are left out: the source accepts them but never reads them.
- Case mapping and `toLowerCase` are left out beyond ASCII. Non-ASCII letters are treated as non-letters. The `\s` class of the prefix expression does cover all ECMAScript white space.
- Selection.IdSelectorValid does not model CSS hex escapes or every rule of CSS identifiers; it covers the one-character keys and `no-match`.
- Selection.SelectGroup assumes the only ids inside the new list are the group ids. An id inside a list item that collides with a key is not modelled. The same holds for the page-wide `document.getElementById` lookups of `initText` (line 155) and of the first letter's group (line 167): the model looks them up among the new list's groups, so an element elsewhere on the page with that id, placed earlier in the document, is not modelled.
- Selection.FindButtonFrom simplifies the attribute selector `a[data-filter="…"]`. The quoting of `initLetter` inside it is not modelled; a value containing `"` would make that selector invalid.
- TextExtract.TextOf treats a node with `nodeType` 0 as having no node type, and reads it as an array with no items.
- Strings.LexLess compares characters as Unicode scalar values, while JavaScript compares UTF-16 code units. The two orders differ only for characters above U+FFFF, and the keys the bucketizer produces are ASCII, so the comparator never meets such characters. For the same reason the model counts text positions (`CharAt`, `Find`, `lastIndex`) in characters, where JavaScript's `charAt` and `lastIndex` count UTF-16 code units. A single item gets the same key either way. After an item with a character above U+FFFF before its match, though, the as-written `ScanKeys` carries a different `lastIndex` from the code's. For example, take the rule `The` and the items "😀 The X" then "abcdefThe Y": the model carries 6 and matches the second item at 6, while the code carries 7, misses, and keys that item `a`.
- Selection.AlphaListNav.constructor returns the navigator even when initialisation throws; the source lets the exception propagate to the caller of `new AlphaListNav(...)`. The model records it in `initFailure` instead.
- Display.SortKeys models `Array.prototype.sort` as an insertion sort. On distinct keys every correct sort gives the same order (`SortedUnique`).
- The bucket map `alphaObj` is a map of string keys. JavaScript's prototype properties on plain objects never collide with the keys the bucketizer produces.

## Findings

| source | as written | input that shows it | evidently intended | confidence | as-written member | corrected member |
|---|---|---|---|---|---|---|
| alphaListNav.js:199-205 | One expression (line 47) with the `g` flag is shared by all items, so `exec` starts each item at the `lastIndex` the previous match left behind. | Two items "The Beatles" with `prefixes: ["The"]`: the first goes under `b`, the second, searched from index 4, finds no match and goes under `t`. | Every item is classified on its own, as if `lastIndex` were 0. | high, not executed | Bucketize.SharedMatcherMisclassifies | Bucketize.GetAlphaObj |
