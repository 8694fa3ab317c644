/**
 * The bucketizer (`_getAlphaObj`, alphaListNav.js:186-234): list items
 * grouped into a sparse map from bucket key to the items of that bucket,
 * in input order.
 */
module Bucketize {
  import opened Strings
  import opened TextExtract
  import opened Prefix
  import opened Config

  /**
   * A list item: its node, and the node `querySelector(filterSelector)`
   * finds inside it (None when it finds nothing).
   */
  datatype Item = Item(node: Node, filtered: Option<Node>)

  /** What a bucket holds: a list item, or the synthetic `li` of `initHidden` (and of `no-match`). */
  datatype Member = Listed(item: Item) | Placeholder(message: string)

  type Buckets = map<string, seq<Member>>

  const InitTextKey := "initText"

  /** Lines 188-194: the text an item is classified by. */
  function EntryText(opts: Options, it: Item): string
  {
    if opts.filterSelector != "" && it.filtered.Some? then TextOf(it.filtered.value) else TextOf(it.node)
  }

  /**
   * Lines 209-217: the key for a lower-cased classification character. The
   * trim and replace of line 197 discard their result, so they do nothing.
   */
  function KeyOfLetter(letter: string, concatenateNums: bool): string
  {
    if |letter| == 1 && IsAsciiAlnum(letter[0]) then
      (if concatenateNums && IsDigit(letter[0]) then "_" else letter)
    else "-"
  }

  /** The bucket key of a non-empty text, classified with a fresh matcher. */
  function KeyOf(opts: Options, text: string): string
  {
    KeyOfLetter(Lower(ClassChar(opts.prefixes, text)), opts.concatenateNums)
  }

  /** The characters a one-character key can be. */
  predicate IsKeyChar(c: char) { IsLowerAscii(c) || IsDigit(c) || c == '_' || c == '-' }

  /**
   * The key rule: a letter gives itself lower-cased, a digit gives `_` when
   * digits are concatenated and itself otherwise, and anything else,
   * including the empty string past the end of the text, gives `-`.
   */
  lemma KeyRule(opts: Options, text: string)
    ensures |KeyOf(opts, text)| == 1 && IsKeyChar(KeyOf(opts, text)[0])
    ensures var c := ClassChar(opts.prefixes, text);
      KeyOf(opts, text) ==
        if c != "" && (IsUpperAscii(c[0]) || IsLowerAscii(c[0])) then [LowerChar(c[0])]
        else if c != "" && IsDigit(c[0]) then (if opts.concatenateNums then "_" else c)
        else "-"
  {
    PrefixOffset(opts.prefixes, text);
  }

  /** The key of every item (None for an item with empty text), each classified on its own. */
  function Keys(opts: Options, items: seq<Item>): (ks: seq<Option<string>>)
    ensures |ks| == |items|
  {
    seq(|items|, i requires 0 <= i < |items| =>
      var t := EntryText(opts, items[i]);
      if t == "" then None else Some(KeyOf(opts, t)))
  }

  /** The positions, in increasing order, whose key is `k`. */
  function Positions(keys: seq<Option<string>>, k: string): (ps: seq<nat>)
    ensures forall j :: 0 <= j < |ps| ==> ps[j] < |keys|
  {
    if |keys| == 0 then []
    else
      var n := |keys| - 1;
      Positions(keys[..n], k) + (if keys[n] == Some(k) then [n] else [])
  }

  /**
   * `Positions` lists exactly the positions whose key is `k`, in strictly
   * increasing order.
   */
  lemma {:induction false} PositionsSpec(keys: seq<Option<string>>, k: string)
    ensures forall j :: 0 <= j < |Positions(keys, k)| ==> keys[Positions(keys, k)[j]] == Some(k)
    ensures forall i :: 0 <= i < |keys| && keys[i] == Some(k) ==> i in Positions(keys, k)
    ensures forall a, b :: 0 <= a < b < |Positions(keys, k)| ==> Positions(keys, k)[a] < Positions(keys, k)[b]
  {
    if |keys| > 0 {
      var n := |keys| - 1;
      var pre := keys[..n];
      PositionsSpec(pre, k);
      var ps := Positions(pre, k);
      forall j | 0 <= j < |ps| ensures keys[ps[j]] == Some(k) {
        assert keys[ps[j]] == pre[ps[j]];
      }
      forall i | 0 <= i < n && keys[i] == Some(k) ensures i in ps {
        assert pre[i] == keys[i];
      }
    }
  }

  /** The items at positions `ps`, as bucket members. */
  function Pick(items: seq<Item>, ps: seq<nat>): seq<Member>
    requires forall j :: 0 <= j < |ps| ==> ps[j] < |items|
  {
    seq(|ps|, j requires 0 <= j < |ps| => Listed(items[ps[j]]))
  }

  function KeySet(keys: seq<Option<string>>): set<string>
  {
    set i | 0 <= i < |keys| && keys[i].Some? :: keys[i].value
  }

  /** The buckets for the first `|keys|` items: one per key that occurs, holding its items in order. */
  function Group(items: seq<Item>, keys: seq<Option<string>>): Buckets
    requires |keys| <= |items|
  {
    map k | k in KeySet(keys) :: Pick(items, Positions(keys, k))
  }

  /** `accum[letter].push(val)`, or `accum[letter] = [val]` for a new key. */
  function Push(m: Buckets, k: string, x: Member): Buckets
  {
    if k in m then m[k := m[k] + [x]] else m[k := [x]]
  }

  /** The value `_getAlphaObj` returns, every item classified with a fresh matcher. */
  function AlphaObj(opts: Options, items: seq<Item>): Buckets
  {
    var g := Group(items, Keys(opts, items));
    if opts.initHidden then g[InitTextKey := [Placeholder(HiddenTextContent(opts.initHiddenText))]] else g
  }

  /** The input positions whose items make up bucket `k`. */
  function Origin(opts: Options, items: seq<Item>, k: string): seq<nat>
  {
    Positions(Keys(opts, items), k)
  }

  lemma PositionsDrop(keys: seq<Option<string>>, k: string)
    requires k !in KeySet(keys)
    ensures Positions(keys, k) == []
  {
    PositionsSpec(keys, k);
  }

  lemma KeySetSnoc(keys: seq<Option<string>>, i: nat)
    requires i < |keys|
    ensures KeySet(keys[..i + 1]) == KeySet(keys[..i]) + (if keys[i].Some? then {keys[i].value} else {})
  {
    var a, b := keys[..i], keys[..i + 1];
    forall x | x in KeySet(b) ensures x in KeySet(a) + (if keys[i].Some? then {keys[i].value} else {}) {
      var j :| 0 <= j < |b| && b[j].Some? && b[j].value == x;
      if j < i { assert a[j] == b[j]; }
    }
    forall x | x in KeySet(a) ensures x in KeySet(b) {
      var j :| 0 <= j < |a| && a[j].Some? && a[j].value == x;
      assert b[j] == a[j];
    }
    if keys[i].Some? {
      assert b[i] == keys[i];
    }
  }

  lemma PositionsSnoc(keys: seq<Option<string>>, i: nat, k: string)
    requires i < |keys|
    ensures Positions(keys[..i + 1], k) == Positions(keys[..i], k) + (if keys[i] == Some(k) then [i] else [])
  {
    assert keys[..i + 1][..i] == keys[..i];
  }

  lemma PickSnoc(items: seq<Item>, ps: seq<nat>, i: nat)
    requires forall j :: 0 <= j < |ps| ==> ps[j] < |items|
    requires i < |items|
    ensures Pick(items, ps + [i]) == Pick(items, ps) + [Listed(items[i])]
  {
  }

  /** One more item with no text leaves the buckets alone. */
  lemma GroupSnocNone(items: seq<Item>, keys: seq<Option<string>>, i: nat)
    requires |keys| <= |items| && i < |keys| && keys[i].None?
    ensures Group(items, keys[..i + 1]) == Group(items, keys[..i])
  {
    var a, b := keys[..i], keys[..i + 1];
    KeySetSnoc(keys, i);
    forall k | k in KeySet(a) ensures Positions(b, k) == Positions(a, k) {
      PositionsSnoc(keys, i, k);
    }
  }

  /** One more item with key `k` extends bucket `k` by that item, or opens it, and leaves the others alone. */
  lemma GroupSnocSome(items: seq<Item>, keys: seq<Option<string>>, i: nat, k: string)
    requires |keys| <= |items| && i < |keys| && keys[i] == Some(k)
    ensures Group(items, keys[..i + 1]) == Push(Group(items, keys[..i]), k, Listed(items[i]))
  {
    var a, b := keys[..i], keys[..i + 1];
    var g, h := Group(items, a), Group(items, b);
    var p := Push(g, k, Listed(items[i]));
    KeySetSnoc(keys, i);
    assert h.Keys == p.Keys;
    forall k' | k' in h ensures h[k'] == p[k'] {
      PositionsSnoc(keys, i, k');
      if k' == k {
        if k !in KeySet(a) {
          PositionsDrop(a, k);
        }
        PickSnoc(items, Positions(a, k), i);
      }
    }
  }

  /** One more item extends its bucket by one entry, or opens it, and leaves the others alone. */
  lemma GroupSnoc(items: seq<Item>, keys: seq<Option<string>>, i: nat)
    requires |keys| <= |items| && i < |keys|
    ensures Group(items, keys[..i + 1]) ==
              match keys[i]
              case None => Group(items, keys[..i])
              case Some(k) => Push(Group(items, keys[..i]), k, Listed(items[i]))
  {
    match keys[i]
    case None => GroupSnocNone(items, keys, i);
    case Some(k) => GroupSnocSome(items, keys, i, k);
  }

  /**
   * One step of the `reduce` callback (lines 188-217) as written: the key of
   * one item, or None when its text is empty, and the `lastIndex` the shared
   * expression is left with.
   */
  function ScanStep(opts: Options, it: Item, lastIndex: nat): (Option<string>, nat)
  {
    var t := EntryText(opts, it);
    if t == "" then (None, lastIndex)
    else
      var (c, li) := ClassCharStep(opts.prefixes, t, lastIndex);
      (Some(KeyOfLetter(Lower(c), opts.concatenateNums)), li)
  }

  /** The keys `_getAlphaObj` computes as written, threading `lastIndex` from one item to the next. */
  function ScanKeys(opts: Options, items: seq<Item>, lastIndex: nat): (r: (seq<Option<string>>, nat))
    ensures |r.0| == |items|
  {
    if items == [] then ([], lastIndex)
    else
      var (k, li) := ScanStep(opts, items[0], lastIndex);
      var (ks, li') := ScanKeys(opts, items[1..], li);
      ([k] + ks, li')
  }

  /** A step taken with `lastIndex` at 0 classifies the text on its own. */
  lemma ScanStepFresh(opts: Options, it: Item)
    ensures ScanStep(opts, it, 0).0 ==
              if EntryText(opts, it) == "" then None else Some(KeyOf(opts, EntryText(opts, it)))
  {
  }

  /**
   * When no rule matches any item's text from its start, the shared
   * `lastIndex` is harmless: the scan gives the keys of the items
   * classified one by one, whatever `lastIndex` it starts with.
   */
  lemma {:induction false} ScanAgreesWithoutMatches(opts: Options, items: seq<Item>, lastIndex: nat)
    requires forall i :: 0 <= i < |items| ==> Search(opts.prefixes, EntryText(opts, items[i]), 0).None?
    ensures ScanKeys(opts, items, lastIndex).0 == Keys(opts, items)
    decreases |items|
  {
    if items != [] {
      var t := EntryText(opts, items[0]);
      if t != "" && |opts.prefixes| > 0 {
        SearchMissFromStart(opts.prefixes, t, lastIndex);
      }
      var li := ScanStep(opts, items[0], lastIndex).1;
      forall i | 0 <= i < |items[1..]|
        ensures Search(opts.prefixes, EntryText(opts, items[1..][i]), 0).None?
      {
        assert items[1..][i] == items[i + 1];
      }
      ScanAgreesWithoutMatches(opts, items[1..], li);
      assert Keys(opts, items) == [Keys(opts, items)[0]] + Keys(opts, items[1..]);
    }
  }

  /** The list item `<li>The Beatles</li>`. */
  const Beatles: Item := Item(DomNode(ElementNode, "", Some("The Beatles"), []), None)

  /** The options `{prefixes: ["The"]}`. */
  const TheRules: seq<LiteralRule> := ["The"]
  const TheRule: Options := Defaults.(prefixes := TheRules)

  /** Classified on its own, "The Beatles" with the rule "The" goes under `b`. */
  lemma BeatlesUnderB()
    ensures KeyOf(TheRule, "The Beatles") == "b"
  {
    var text := "The Beatles";
    assert RuleMatchesAt("The", text, 0);
    assert MatchAt(TheRules, text, 0) == Some(4);
    assert Search(TheRules, text, 0) == Some(4);
  }

  /** The rule may match anywhere: "Meet The Beatles" with the rule "The" also goes under `b`. */
  /** `exec` on "Meet The Beatles" with the rule "The" matches at position 5 and ends at 9. */
  lemma MeetTheBeatlesSearch(rules: seq<LiteralRule>, text: string)
    requires rules == ["The"] && text == "Meet The Beatles"
    ensures Find(rules, text, 0) == Some(5)
    ensures Search(rules, text, 0) == Some(9)
  {
    assert !RuleMatchesAt("The", text, 0) by { assert !SameIgnoringCase(text[0 + 0], "The"[0]); }
    assert !RuleMatchesAt("The", text, 1) by { assert !SameIgnoringCase(text[1 + 0], "The"[0]); }
    assert !RuleMatchesAt("The", text, 2) by { assert !SameIgnoringCase(text[2 + 0], "The"[0]); }
    assert !RuleMatchesAt("The", text, 3) by { assert !SameIgnoringCase(text[3 + 1], "The"[1]); }
    assert !RuleMatchesAt("The", text, 4) by { assert !SameIgnoringCase(text[4 + 0], "The"[0]); }
    assert RuleMatchesAt("The", text, 5);
    assert MatchAt(rules, text, 5) == Some(9);
    assert Find(rules, text, 5) == Some(5);
    assert MatchAt(rules, text, 4) == None;
    assert Find(rules, text, 4) == Some(5);
    assert MatchAt(rules, text, 3) == None;
    assert Find(rules, text, 3) == Some(5);
    assert MatchAt(rules, text, 2) == None;
    assert Find(rules, text, 2) == Some(5);
    assert MatchAt(rules, text, 1) == None;
    assert Find(rules, text, 1) == Some(5);
    assert MatchAt(rules, text, 0) == None;
    assert Find(rules, text, 0) == Some(5);
  }

  lemma UnanchoredPrefix(text: string)
    requires text == "Meet The Beatles"
    ensures KeyOf(TheRule, text) == "b"
  {
    var rules := TheRule.prefixes;
    MeetTheBeatlesSearch(rules, text);
    assert ClassChar(rules, text) == "B";
    assert Lower("B") == "b";
    assert KeyOfLetter("b", TheRule.concatenateNums) == "b";
  }

  /**
   * A rule written with its separator, "The ", asks for two white-space
   * characters (line 41 appends `\s`), so "The Beatles" goes under `t`.
   */
  lemma TrailingSpaceRule(text: string)
    requires text == "The Beatles"
    ensures KeyOf(Defaults.(prefixes := ["The "]), text) == "t"
  {
    var rules: seq<LiteralRule> := ["The "];
    assert !RuleMatchesAt("The ", text, 0) by { assert !IsRegExpSpace(text[0 + 4]); }
    assert !RuleMatchesAt("The ", text, 1) by { assert !SameIgnoringCase(text[1 + 0], "The "[0]); }
    assert !RuleMatchesAt("The ", text, 2) by { assert !SameIgnoringCase(text[2 + 0], "The "[0]); }
    assert !RuleMatchesAt("The ", text, 3) by { assert !SameIgnoringCase(text[3 + 0], "The "[0]); }
    assert !RuleMatchesAt("The ", text, 4) by { assert !SameIgnoringCase(text[4 + 0], "The "[0]); }
    assert !RuleMatchesAt("The ", text, 5) by { assert !SameIgnoringCase(text[5 + 0], "The "[0]); }
    assert !RuleMatchesAt("The ", text, 6) by { assert !SameIgnoringCase(text[6 + 0], "The "[0]); }
    assert forall p: nat :: p >= 7 ==> MatchAt(rules, text, p).None?;
    assert Find(rules, text, 12) == None;
    assert Find(rules, text, 11) == None;
    assert Find(rules, text, 10) == None;
    assert Find(rules, text, 9) == None;
    assert Find(rules, text, 8) == None;
    assert Find(rules, text, 7) == None;
    assert MatchAt(rules, text, 6) == None;
    assert Find(rules, text, 6) == None;
    assert MatchAt(rules, text, 5) == None;
    assert Find(rules, text, 5) == None;
    assert MatchAt(rules, text, 4) == None;
    assert Find(rules, text, 4) == None;
    assert MatchAt(rules, text, 3) == None;
    assert Find(rules, text, 3) == None;
    assert MatchAt(rules, text, 2) == None;
    assert Find(rules, text, 2) == None;
    assert MatchAt(rules, text, 1) == None;
    assert Find(rules, text, 1) == None;
    assert MatchAt(rules, text, 0) == None;
    assert Find(rules, text, 0) == None;
    assert ClassChar(rules, text) == "T";
    assert Lower("T") == "t";
  }

  /**
   * The shared expression misclassifies a repeated entry: two list items
   * "The Beatles" are classified `b` and then `t`. The second `exec` starts
   * at the `lastIndex` the first one left behind, finds nothing, and the
   * first character is used.
   */
  lemma SharedMatcherMisclassifies()
    ensures ScanKeys(TheRule, [Beatles, Beatles], 0).0 == [Some("b"), Some("t")]
    ensures Keys(TheRule, [Beatles, Beatles]) == [Some("b"), Some("b")]
  {
    var text := "The Beatles";
    var rules := TheRules;
    assert EntryText(TheRule, Beatles) == text;
    BeatlesSearches(rules, text);
    assert ClassCharStep(rules, text, 0) == ("B", 4);
    assert Lower("B") == "b";
    assert ScanStep(TheRule, Beatles, 0) == (Some("b"), 4);
    assert ClassCharStep(rules, text, 4) == ("T", 0);
    assert Lower("T") == "t";
    assert ScanStep(TheRule, Beatles, 4) == (Some("t"), 0);
    assert [Beatles, Beatles][1..] == [Beatles];
  }

  /** `exec` on "The Beatles" with the rule "The" ends its match at 4, and finds nothing from 4 on. */
  lemma BeatlesSearches(rules: seq<LiteralRule>, text: string)
    requires rules == ["The"] && text == "The Beatles"
    ensures Search(rules, text, 0) == Some(4)
    ensures Search(rules, text, 4) == None
  {
    assert RuleMatchesAt("The", text, 0);
    assert !RuleMatchesAt("The", text, 4) by { assert !SameIgnoringCase(text[4 + 0], "The"[0]); }
    assert !RuleMatchesAt("The", text, 5) by { assert !SameIgnoringCase(text[5 + 0], "The"[0]); }
    assert !RuleMatchesAt("The", text, 6) by { assert !SameIgnoringCase(text[6 + 0], "The"[0]); }
    assert !RuleMatchesAt("The", text, 7) by { assert !SameIgnoringCase(text[7 + 1], "The"[1]); }
    assert forall p: nat :: p >= 8 ==> MatchAt(rules, text, p).None?;
    assert Find(rules, text, 11) == None;
    assert Find(rules, text, 10) == None;
    assert Find(rules, text, 9) == None;
    assert Find(rules, text, 8) == None;
    assert MatchAt(rules, text, 7) == None;
    assert Find(rules, text, 7) == None;
    assert MatchAt(rules, text, 6) == None;
    assert Find(rules, text, 6) == None;
    assert MatchAt(rules, text, 5) == None;
    assert Find(rules, text, 5) == None;
    assert MatchAt(rules, text, 4) == None;
    assert Find(rules, text, 4) == None;
  }

  /**
   * The callback of the `reduce` (lines 188-217) up to the push, on the
   * shared expression `matcher` (lines 199-208): the key of one item, or
   * None when its text is empty.
   */
  method ClassifyItem(opts: Options, matcher: PrefixMatcher, val: Item) returns (key: Option<string>)
    requires matcher.rules == opts.prefixes
    modifies matcher
    ensures (key, matcher.lastIndex) == ScanStep(opts, val, old(matcher.lastIndex))
  {
    var text: string;
    if opts.filterSelector != "" && val.filtered.Some? {
      text := GetText(val.filtered.value);
    } else {
      text := GetText(val.node);
    }
    if text == "" {
      return None;
    }
    var c: string;
    if |opts.prefixes| > 0 {
      c := matcher.Classify(text);
    } else {
      c := CharAt(text, 0);
    }
    var letter := Lower(c);
    if |letter| == 1 && IsAsciiAlnum(letter[0]) {
      if opts.concatenateNums && IsDigit(letter[0]) {
        letter := "_";
      }
    } else {
      letter := "-";
    }
    key := Some(letter);
  }

  /**
   * `_getAlphaObj` (the `reduce` of lines 187-226 and lines 227-232), with
   * the shared expression's `lastIndex` reset before each item so that every
   * item is classified on its own.
   */
  method GetAlphaObj(opts: Options, items: seq<Item>, matcher: PrefixMatcher) returns (alphaObj: Buckets)
    requires matcher.rules == opts.prefixes
    modifies matcher
    ensures alphaObj == AlphaObj(opts, items)
  {
    ghost var keys := Keys(opts, items);
    var accum: Buckets := map[];
    var i := 0;
    assert keys[..0] == [];
    while i < |items|
      invariant 0 <= i <= |items|
      invariant accum == Group(items, keys[..i])
    {
      matcher.lastIndex := 0;
      var key := ClassifyItem(opts, matcher, items[i]);
      ScanStepFresh(opts, items[i]);
      assert key == keys[i];
      if key.Some? {
        var letter := key.value;
        if letter in accum {
          accum := accum[letter := accum[letter] + [Listed(items[i])]];
        } else {
          accum := accum[letter := [Listed(items[i])]];
        }
      }
      GroupSnoc(items, keys, i);
      i := i + 1;
    }
    assert keys[..i] == keys;
    if opts.initHidden {
      accum := accum[InitTextKey := [Placeholder(HiddenTextContent(opts.initHiddenText))]];
    }
    alphaObj := accum;
  }

  /**
   * Every item with non-empty text lands in exactly one bucket, the one of
   * its key, and an item with empty text in none. Each bucket other than
   * `initText` holds the items of its key in input order.
   */
  lemma EveryEntryLandsOnce(opts: Options, items: seq<Item>, i: nat)
    requires i < |items|
    ensures EntryText(opts, items[i]) == "" ==> forall k :: i !in Origin(opts, items, k)
    ensures EntryText(opts, items[i]) != "" ==>
              var k := KeyOf(opts, EntryText(opts, items[i]));
              k in AlphaObj(opts, items) && i in Origin(opts, items, k) &&
              forall k' :: k' != k ==> i !in Origin(opts, items, k')
  {
    var keys := Keys(opts, items);
    forall k ensures forall j :: 0 <= j < |Positions(keys, k)| ==> keys[Positions(keys, k)[j]] == Some(k) {
      PositionsSpec(keys, k);
    }
    if EntryText(opts, items[i]) != "" {
      var k := KeyOf(opts, EntryText(opts, items[i]));
      PositionsSpec(keys, k);
      KeyRule(opts, EntryText(opts, items[i]));
      assert keys[i] == Some(k);
      assert k in KeySet(keys);
    }
  }

  /** Every bucket of a key that occurs holds that key's items, in input order, and is not empty. */
  lemma BucketsInOrder(opts: Options, items: seq<Item>, k: string)
    requires k in AlphaObj(opts, items) && k != InitTextKey
    ensures AlphaObj(opts, items)[k] == Pick(items, Origin(opts, items, k))
    ensures Origin(opts, items, k) != []
    ensures forall a, b :: 0 <= a < b < |Origin(opts, items, k)| ==> Origin(opts, items, k)[a] < Origin(opts, items, k)[b]
  {
    var keys := Keys(opts, items);
    PositionsSpec(keys, k);
    var j :| 0 <= j < |keys| && keys[j].Some? && keys[j].value == k;
    assert j in Positions(keys, k);
  }

  /**
   * The keys of the map: `initText` exactly when `initHidden` is set, with
   * the placeholder as its only member whatever `initHiddenText` is;
   * otherwise one character out of `a`-`z`, `0`-`9`, `_` and `-`, and no
   * digit when digits are concatenated. No bucket is empty.
   */
  lemma BucketKeys(opts: Options, items: seq<Item>)
    ensures forall k :: k in AlphaObj(opts, items) ==> k == InitTextKey || (|k| == 1 && IsKeyChar(k[0]))
    ensures opts.concatenateNums ==> forall k :: k in AlphaObj(opts, items) ==> !IsDigit(k[0])
    ensures InitTextKey in AlphaObj(opts, items) <==> opts.initHidden
    ensures opts.initHidden ==> AlphaObj(opts, items)[InitTextKey] == [Placeholder(HiddenTextContent(opts.initHiddenText))]
    ensures forall k :: k in AlphaObj(opts, items) ==> AlphaObj(opts, items)[k] != []
  {
    var keys := Keys(opts, items);
    forall k | k in KeySet(keys)
      ensures |k| == 1 && IsKeyChar(k[0]) && (opts.concatenateNums ==> !IsDigit(k[0]))
      ensures AlphaObj(opts, items)[k] != [] || k == InitTextKey
    {
      var j :| 0 <= j < |keys| && keys[j].Some? && keys[j].value == k;
      KeyRule(opts, EntryText(opts, items[j]));
      PositionsSpec(keys, k);
      assert j in Positions(keys, k);
    }
  }
}
