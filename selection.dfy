/**
 * The selection state: which groups and which navigation entries carry the
 * `active` class. `initAlphaListNav` (alphaListNav.js:137-170) sets the
 * initial state and the click handler (alphaListNav.js:79-104) moves it.
 *
 * The DOM lookups the source makes can throw: `querySelector` returns null
 * for an entry the bar does not contain, `find` returns undefined when no
 * letter is populated, and an id selector that is not a CSS identifier is a
 * syntax error. Each is a `Failure`, reported with the state as it was when
 * the exception was thrown.
 */
module Selection {
  import opened Strings
  import opened Config
  import opened Bucketize
  import opened Display
  import opened Navigation
  import opened Prefix

  datatype Failure =
    | MissingControl(filter: string)  // no entry `a[data-filter="…"]`
    | NoPopulatedLetter               // `find` returned undefined (line 163)
    | BadSelector(selector: string)   // `#…` is not a valid selector
    | MissingGroup(id: string)        // no element with that id

  /** The active groups, by id, and the active entries, by position in the bar. */
  datatype Marking = Marking(groups: set<string>, buttons: set<nat>)

  datatype Outcome = Outcome(marking: Marking, failure: Option<Failure>)

  const Nothing := Marking({}, {})

  function ToSet(s: seq<string>): set<string>
  {
    set x | x in s
  }

  /** The ids of all children of the new list: the wrappers, then `no-match`. */
  function AllIds(ids: seq<string>): seq<string>
  {
    ids + [NoMatchId]
  }

  /** The first entry with `data-filter` equal to `f`, from position `i` on. */
  function FindButtonFrom(nav: seq<NavEntry>, f: string, i: nat): (r: Option<nat>)
    requires i <= |nav|
    ensures r.Some? ==> i <= r.value < |nav| && nav[r.value].filter == Some(f) &&
                        forall j :: i <= j < r.value ==> nav[j].filter != Some(f)
    ensures r.None? ==> forall j :: i <= j < |nav| ==> nav[j].filter != Some(f)
    decreases |nav| - i
  {
    if i == |nav| then None
    else if nav[i].filter == Some(f) then Some(i)
    else FindButtonFrom(nav, f, i + 1)
  }

  /** `querySelector('a[data-filter="f"]')` on the bar: the first matching entry. */
  function FindButton(nav: seq<NavEntry>, f: string): Option<nat>
  {
    FindButtonFrom(nav, f, 0)
  }

  /** The first letter from position `i` of A..Z whose lower case is a bucket key. */
  function FirstLetterFrom(alphaObj: Buckets, i: nat): Option<string>
    requires i <= 26
    decreases 26 - i
  {
    if i == 26 then None
    else if Lower(AtoZ()[i]) in alphaObj then Some(Lower(AtoZ()[i]))
    else FirstLetterFrom(alphaObj, i + 1)
  }

  /** Line 163: the first of A..Z with a bucket, lower-cased. */
  function FirstLetter(alphaObj: Buckets): Option<string>
  {
    FirstLetterFrom(alphaObj, 0)
  }

  /** The characters that may start a CSS name. */
  predicate NameStart(c: char)
  {
    IsUpperAscii(c) || IsLowerAscii(c) || c == '_' || c >= '\U{80}'
  }

  predicate NameChar(c: char)
  {
    NameStart(c) || IsDigit(c) || c == '-'
  }

  /** A run of name characters and escapes. */
  predicate IsName(s: string)
    decreases |s|
  {
    s == [] ||
    (s[0] == '\\' && |s| >= 2 && s[1] != '\n' && IsName(s[2..])) ||
    (s[0] != '\\' && NameChar(s[0]) && IsName(s[1..]))
  }

  /** The first characters of `s` start a CSS identifier. */
  predicate StartsIdent(s: string)
  {
    |s| >= 1 &&
    (NameStart(s[0]) ||
     (s[0] == '\\' && |s| >= 2 && s[1] != '\n') ||
     (s[0] == '-' && |s| >= 2 && (NameStart(s[1]) || s[1] == '-' || (s[1] == '\\' && |s| >= 3 && s[2] != '\n'))))
  }

  /** `#` followed by `s` is a valid id selector. */
  predicate IdSelectorValid(s: string)
  {
    StartsIdent(s) && IsName(s)
  }

  /** `replace(/[-]/, '\\$&')`: a backslash before the first `-` only. */
  function EscapeFirstDash(s: string): string
  {
    if s == [] then []
    else if s[0] == '-' then "\\-" + s[1..]
    else [s[0]] + EscapeFirstDash(s[1..])
  }

  /**
   * On the keys of a bucket map: the escaped selector of the click handler
   * is valid for every key but a digit, and the unescaped one of line 149
   * for every key but a digit and `-`.
   */
  lemma SelectorOfKey(k: string)
    requires |k| == 1 && IsKeyChar(k[0])
    ensures IdSelectorValid(EscapeFirstDash(k)) <==> !IsDigit(k[0])
    ensures IdSelectorValid(k) <==> !IsDigit(k[0]) && k != "-"
  {
    assert IsName(k[1..]);
    if k[0] == '-' {
      assert EscapeFirstDash(k) == "\\-";
      assert IsName("-"[1..]);
    } else {
      assert EscapeFirstDash(k) == [k[0]] + EscapeFirstDash(k[1..]);
      assert EscapeFirstDash(k) == k;
    }
  }

  /** The escaped selector `no\-match` of the `no-match` entry is valid. */
  lemma NoMatchSelector()
    ensures IdSelectorValid(EscapeFirstDash(NoMatchId))
  {
    var e := EscapeFirstDash(NoMatchId);
    assert e == "no\\-match";
    NameCharsAreName(e[4..]);
    assert IsName(e[2..]);
    NameAppend(e[..2], e[2..]);
    assert e[..2] + e[2..] == e;
  }

  lemma {:induction false} NameCharsAreName(s: string)
    requires forall i :: 0 <= i < |s| ==> NameChar(s[i])
    ensures IsName(s)
    decreases |s|
  {
    if s != [] {
      NameCharsAreName(s[1..]);
    }
  }

  lemma {:induction false} NameAppend(a: string, b: string)
    requires forall i :: 0 <= i < |a| ==> NameChar(a[i])
    requires IsName(b)
    ensures IsName(a + b)
    decreases |a|
  {
    if a != [] {
      NameAppend(a[1..], b);
      assert (a + b)[1..] == a[1..] + b;
    } else {
      assert a + b == b;
    }
  }

  /** `querySelector('#' + sel)` inside the new list, for a selector that denotes id `f`. */
  function SelectGroup(allIds: seq<string>, m: Marking, sel: string, f: string): Outcome
  {
    if !IdSelectorValid(sel) then Outcome(m, Some(BadSelector(sel)))
    else if f in allIds then Outcome(m.(groups := m.groups + {f}), None)
    else Outcome(m, Some(MissingGroup(f)))
  }

  /**
   * `initAlphaListNav` (lines 137-170) on fresh markup: what it makes
   * active, and the exception it throws if any. `ids` are the wrapper ids in
   * display order.
   */
  function Initial(opts: Options, alphaObj: Buckets, ids: seq<string>, nav: seq<NavEntry>): Outcome
  {
    if opts.initLetter != "" then
      if opts.initLetter == "*" && opts.includeAll then
        match FindButton(nav, Lower(opts.initLetter))
        case None => Outcome(Nothing, Some(MissingControl(Lower(opts.initLetter))))
        case Some(b) => Outcome(Marking(ToSet(ids), {b}), None)
      else
        var l := Lower(opts.initLetter);
        if l in alphaObj then
          match FindButton(nav, l)
          case None => Outcome(Nothing, Some(MissingControl(l)))
          case Some(b) => SelectGroup(AllIds(ids), Marking({}, {b}), l, l)
        else Outcome(Nothing, None)
    else if opts.initHidden then
      if HiddenTextTruthy(opts.initHiddenText) then
        (if InitTextKey in AllIds(ids) then Outcome(Marking({InitTextKey}, {}), None)
         else Outcome(Nothing, Some(MissingGroup(InitTextKey))))
      else Outcome(Nothing, None)
    else if opts.includeAll then
      match FindButton(nav, "*")
      case None => Outcome(Marking(ToSet(ids), {}), Some(MissingControl("*")))
      case Some(b) => Outcome(Marking(ToSet(ids), {b}), None)
    else
      match FirstLetter(alphaObj)
      case None => Outcome(Nothing, Some(NoPopulatedLetter))
      case Some(l) =>
        match FindButton(nav, l)
        case None => Outcome(Nothing, Some(MissingControl(l)))
        case Some(b) =>
          if l in AllIds(ids) then Outcome(Marking({l}, {b}), None)
          else Outcome(Marking({}, {b}), Some(MissingGroup(l)))
  }

  /**
   * The click handler (lines 82-103) on the marking `m`. `target` is the
   * position of the clicked entry, or None for a click on the bar itself.
   */
  function ClickStep(ids: seq<string>, nav: seq<NavEntry>, m: Marking, target: Option<nat>): Outcome
    requires target.Some? ==> target.value < |nav|
  {
    if target.None? || nav[target.value].filter.None? || nav[target.value].filter.value == "" then Outcome(m, None)
    else
      var t := target.value;
      var f := nav[t].filter.value;
      if f == "*" then Outcome(Marking(set x | x in AllIds(ids) && x != NoMatchId, {t}), None)
      else SelectGroup(AllIds(ids), Marking({}, {t}), EscapeFirstDash(f), f)
  }

  /** At most one entry is active, and only entries and groups that exist are. */
  predicate WellMarked(ids: seq<string>, nav: seq<NavEntry>, m: Marking)
  {
    |m.buttons| <= 1 && (forall b :: b in m.buttons ==> b < |nav|) && m.groups <= ToSet(AllIds(ids))
  }

  /**
   * Lemmas about the navigator built from a list: the buckets, the
   * wrappers in display order and the bar.
   */
  ghost predicate Built(opts: Options, items: seq<Item>, ids: seq<string>, nav: seq<NavEntry>)
  {
    StrictlySorted(ids) &&
    (forall k :: k in ids <==> k in AlphaObj(opts, items)) &&
    nav == AlphaNav(opts, AlphaObj(opts, items), CandidateList(opts))
  }

  /** No entry of the bar has the filter `*` (the "all" entry is commented out at lines 321-322 and 335-337). */
  lemma NoAllControl(opts: Options, items: seq<Item>)
    ensures FindButton(AlphaNav(opts, AlphaObj(opts, items), CandidateList(opts)), "*").None?
  {
    CandidateChars(opts);
    BucketKeys(opts, items);
    FiltersTarget(opts, AlphaObj(opts, items), CandidateList(opts));
  }

  /** The bar has an entry for the bucket of every candidate that has one. */
  lemma {:induction false} ButtonExists(opts: Options, alphaObj: Buckets, c: string)
    requires c in CandidateList(opts) && Lower(c) in alphaObj
    ensures FindButton(AlphaNav(opts, alphaObj, CandidateList(opts)), Lower(c)).Some?
  {
    var cs := CandidateList(opts);
    NavFollowsCandidates(opts, alphaObj, cs);
    var sh := Shown(opts, alphaObj, cs);
    assert c in sh;
    var j :| 0 <= j < |sh| && sh[j] == c;
    assert AlphaNav(opts, alphaObj, cs)[j].filter == Some(Lower(c));
  }

  /** `initLetter` `*` with `includeAll` always throws, before anything is made active. */
  lemma InitAllLetterFails(opts: Options, items: seq<Item>, ids: seq<string>, nav: seq<NavEntry>)
    requires Built(opts, items, ids, nav)
    requires opts.initLetter == "*" && opts.includeAll
    ensures Initial(opts, AlphaObj(opts, items), ids, nav) == Outcome(Nothing, Some(MissingControl("*")))
  {
    NoAllControl(opts, items);
    assert Lower("*") == "*";
  }

  /** Any other `initLetter` that names no bucket leaves everything inactive, without an error. */
  lemma InitLetterUnknown(opts: Options, items: seq<Item>, ids: seq<string>, nav: seq<NavEntry>)
    requires Built(opts, items, ids, nav)
    requires opts.initLetter != "" && !(opts.initLetter == "*" && opts.includeAll)
    requires Lower(opts.initLetter) !in AlphaObj(opts, items)
    ensures Initial(opts, AlphaObj(opts, items), ids, nav) == Outcome(Nothing, None)
  {
  }

  /** An `initLetter` that names a letter bucket activates that bucket and its entry. */
  lemma InitLetterFound(opts: Options, items: seq<Item>, ids: seq<string>, nav: seq<NavEntry>)
    requires Built(opts, items, ids, nav)
    requires opts.initLetter != "" && opts.initLetter != "*"
    requires var l := Lower(opts.initLetter); l in AlphaObj(opts, items) && |l| == 1 && IsLowerAscii(l[0])
    ensures var l := Lower(opts.initLetter); var r := Initial(opts, AlphaObj(opts, items), ids, nav);
      r.failure.None? && r.marking.groups == {l} && |r.marking.buttons| == 1 &&
      forall b :: b in r.marking.buttons ==> nav[b].filter == Some(l)
  {
    var l := Lower(opts.initLetter);
    var B := AlphaObj(opts, items);
    SelectorOfKey(l);
    var c := [UpperChar(l[0])];
    assert Lower(c) == l;
    LetterCandidates(opts, c);
    ButtonExists(opts, B, c);
    assert l in AllIds(ids);
  }

  /**
   * An `initLetter` that names a digit bucket activates its entry, then
   * the selector `#0`..`#9` is invalid and throws before any group is active.
   */
  lemma InitLetterDigit(opts: Options, items: seq<Item>, ids: seq<string>, nav: seq<NavEntry>)
    requires Built(opts, items, ids, nav)
    requires opts.includeNums && !opts.concatenateNums
    requires var l := Lower(opts.initLetter); l in AlphaObj(opts, items) && |l| == 1 && IsDigit(l[0])
    ensures var l := Lower(opts.initLetter); var r := Initial(opts, AlphaObj(opts, items), ids, nav);
      r.failure == Some(BadSelector(l)) && r.marking.groups == {} && |r.marking.buttons| == 1
  {
    var l := Lower(opts.initLetter);
    var B := AlphaObj(opts, items);
    assert IsKeyChar(l[0]);
    SelectorOfKey(l);
    DigitCandidates(opts, l);
    assert Lower(l) == l;
    ButtonExists(opts, B, l);
    assert opts.initLetter != "*";
  }

  /** No candidate has the lower case `l`, so the bar has no entry with filter `l`. */
  lemma NoEntryWithoutCandidate(opts: Options, items: seq<Item>, l: string)
    requires l in AlphaObj(opts, items)
    requires forall c :: c in CandidateList(opts) ==> Lower(c) != l
    ensures FindButton(AlphaNav(opts, AlphaObj(opts, items), CandidateList(opts)), l).None?
  {
    BucketKeys(opts, items);
    assert l != NoMatchId;
    FiltersFromCandidates(opts, AlphaObj(opts, items), CandidateList(opts));
  }

  /**
   * Any `initLetter` (other than `*` with `includeAll`) whose lower case `l`
   * has a bucket. With no candidate whose lower case is `l` the bar has no
   * entry for it and the lookup throws before anything is active. Otherwise
   * one entry with filter `l` is made active; then the id selector `#l`
   * either is invalid and throws with no group active, or activates exactly
   * the group `l`.
   */
  lemma InitLetterCases(opts: Options, items: seq<Item>, ids: seq<string>, nav: seq<NavEntry>)
    requires Built(opts, items, ids, nav)
    requires opts.initLetter != "" && !(opts.initLetter == "*" && opts.includeAll)
    requires Lower(opts.initLetter) in AlphaObj(opts, items)
    ensures var l := Lower(opts.initLetter); var r := Initial(opts, AlphaObj(opts, items), ids, nav);
      (forall c :: c in CandidateList(opts) ==> Lower(c) != l) ==> r == Outcome(Nothing, Some(MissingControl(l)))
    ensures var l := Lower(opts.initLetter); var r := Initial(opts, AlphaObj(opts, items), ids, nav);
      (exists c :: c in CandidateList(opts) && Lower(c) == l) ==>
        |r.marking.buttons| == 1 && (forall b :: b in r.marking.buttons ==> nav[b].filter == Some(l)) &&
        (IdSelectorValid(l) ==> r == Outcome(Marking({l}, r.marking.buttons), None)) &&
        (!IdSelectorValid(l) ==> r == Outcome(Marking({}, r.marking.buttons), Some(BadSelector(l))))
  {
    var l := Lower(opts.initLetter);
    if forall c :: c in CandidateList(opts) ==> Lower(c) != l {
      NoEntryWithoutCandidate(opts, items, l);
    } else {
      var c :| c in CandidateList(opts) && Lower(c) == l;
      ButtonExists(opts, AlphaObj(opts, items), c);
      assert l in AllIds(ids);
    }
  }

  /**
   * A digit bucket without the digits in the bar (`includeNums` unset, so
   * only `_` or nothing precedes the letters), or the `-` bucket, which is
   * never in the bar: an `initLetter` naming it finds no entry and throws.
   */
  lemma InitLetterNoEntry(opts: Options, items: seq<Item>, ids: seq<string>, nav: seq<NavEntry>)
    requires Built(opts, items, ids, nav)
    requires var l := Lower(opts.initLetter);
      l in AlphaObj(opts, items) && ((|l| == 1 && IsDigit(l[0]) && !opts.includeNums) || l == "-")
    ensures Initial(opts, AlphaObj(opts, items), ids, nav) == Outcome(Nothing, Some(MissingControl(Lower(opts.initLetter))))
  {
    var l := Lower(opts.initLetter);
    assert |opts.initLetter| == |l|;
    assert Lower("*") == "*";
    NoCandidateFor(opts, l);
    InitLetterCases(opts, items, ids, nav);
  }

  /**
   * With `includeNums` and `concatenateNums`, an `initLetter` `_` naming the
   * digits bucket activates that group and its `0 - 9` entry.
   */
  lemma InitLetterUnderscore(opts: Options, items: seq<Item>, ids: seq<string>, nav: seq<NavEntry>)
    requires Built(opts, items, ids, nav)
    requires opts.includeNums && opts.concatenateNums
    requires opts.initLetter == "_" && "_" in AlphaObj(opts, items)
    ensures var r := Initial(opts, AlphaObj(opts, items), ids, nav);
      r.failure.None? && r.marking.groups == {"_"} && |r.marking.buttons| == 1 &&
      forall b :: b in r.marking.buttons ==> nav[b].filter == Some("_")
  {
    assert Lower("_") == "_";
    UnderscoreCandidate(opts);
    SelectorOfKey("_");
    InitLetterCases(opts, items, ids, nav);
  }

  /** With no `initLetter` and `initHidden` set, only `initText` is active, and only when `initHiddenText` is truthy. */
  lemma InitHiddenCase(opts: Options, items: seq<Item>, ids: seq<string>, nav: seq<NavEntry>)
    requires Built(opts, items, ids, nav)
    requires opts.initLetter == "" && opts.initHidden
    ensures Initial(opts, AlphaObj(opts, items), ids, nav) ==
              Outcome(Marking(if HiddenTextTruthy(opts.initHiddenText) then {InitTextKey} else {}, {}), None)
  {
    BucketKeys(opts, items);
    assert InitTextKey in AllIds(ids);
  }

  /**
   * With no `initLetter`, no `initHidden` and `includeAll` set, every
   * wrapper is made active, `initText` included and `no-match` not; then
   * the lookup of the missing "all" entry throws.
   */
  lemma InitIncludeAllCase(opts: Options, items: seq<Item>, ids: seq<string>, nav: seq<NavEntry>)
    requires Built(opts, items, ids, nav)
    requires opts.initLetter == "" && !opts.initHidden && opts.includeAll
    ensures Initial(opts, AlphaObj(opts, items), ids, nav) ==
              Outcome(Marking(AlphaObj(opts, items).Keys, {}), Some(MissingControl("*")))
  {
    NoAllControl(opts, items);
    assert ToSet(ids) == AlphaObj(opts, items).Keys;
  }

  /** The default options take that branch: every group is active and the listener is never attached. */
  lemma DefaultsFail(items: seq<Item>, ids: seq<string>, nav: seq<NavEntry>)
    requires Built(Defaults, items, ids, nav)
    ensures Initial(Defaults, AlphaObj(Defaults, items), ids, nav) ==
              Outcome(Marking(AlphaObj(Defaults, items).Keys, {}), Some(MissingControl("*")))
  {
    InitIncludeAllCase(Defaults, items, ids, nav);
  }

  /** `FirstLetterFrom` finds the first populated letter from `i` on. */
  lemma {:induction false} FirstLetterFromSpec(alphaObj: Buckets, i: nat)
    requires i <= 26
    ensures FirstLetterFrom(alphaObj, i).Some? ==>
              exists j :: i <= j < 26 && FirstLetterFrom(alphaObj, i).value == Lower(AtoZ()[j]) &&
                Lower(AtoZ()[j]) in alphaObj && forall q :: i <= q < j ==> Lower(AtoZ()[q]) !in alphaObj
    ensures FirstLetterFrom(alphaObj, i).None? ==> forall q :: i <= q < 26 ==> Lower(AtoZ()[q]) !in alphaObj
    decreases 26 - i
  {
    if i < 26 && Lower(AtoZ()[i]) !in alphaObj {
      FirstLetterFromSpec(alphaObj, i + 1);
    }
  }

  /**
   * The first letter is the smallest lower-case letter with a bucket;
   * digits, `_` and `-` are never considered.
   */
  lemma FirstLetterSpec(alphaObj: Buckets)
    ensures FirstLetter(alphaObj).Some? ==>
              var l := FirstLetter(alphaObj).value;
              l in alphaObj && |l| == 1 && IsLowerAscii(l[0]) &&
              forall c: char :: 'a' <= c < l[0] ==> [c] !in alphaObj
    ensures FirstLetter(alphaObj).None? ==> forall c: char :: IsLowerAscii(c) ==> [c] !in alphaObj
  {
    FirstLetterFromSpec(alphaObj, 0);
    forall q | 0 <= q < 26 ensures Lower(AtoZ()[q]) == [(97 + q) as char] {
      assert Lower(AtoZ()[q])[0] == LowerChar(AtoZ()[q][0]);
    }
    if FirstLetter(alphaObj).None? {
      forall c: char | IsLowerAscii(c) ensures [c] !in alphaObj {
        assert Lower(AtoZ()[c as int - 97]) == [c];
      }
    } else {
      var j :| 0 <= j < 26 && FirstLetter(alphaObj).value == Lower(AtoZ()[j]) &&
               Lower(AtoZ()[j]) in alphaObj && forall q :: 0 <= q < j ==> Lower(AtoZ()[q]) !in alphaObj;
      forall c: char | 'a' <= c < FirstLetter(alphaObj).value[0] ensures [c] !in alphaObj {
        assert Lower(AtoZ()[c as int - 97]) == [c];
      }
    }
  }

  /**
   * With no `initLetter`, `initHidden` or `includeAll`, the first
   * populated letter and its entry become active; with no populated letter
   * the source throws.
   */
  lemma InitFirstLetterCase(opts: Options, items: seq<Item>, ids: seq<string>, nav: seq<NavEntry>)
    requires Built(opts, items, ids, nav)
    requires opts.initLetter == "" && !opts.initHidden && !opts.includeAll
    ensures var r := Initial(opts, AlphaObj(opts, items), ids, nav);
      match FirstLetter(AlphaObj(opts, items))
      case None => r == Outcome(Nothing, Some(NoPopulatedLetter))
      case Some(l) =>
        r.failure.None? && r.marking.groups == {l} && |r.marking.buttons| == 1 &&
        forall b :: b in r.marking.buttons ==> nav[b].filter == Some(l)
  {
    var B := AlphaObj(opts, items);
    FirstLetterSpec(B);
    if FirstLetter(B).Some? {
      var l := FirstLetter(B).value;
      var c := [UpperChar(l[0])];
      assert Lower(c) == l;
      LetterCandidates(opts, c);
      ButtonExists(opts, B, c);
      assert l in AllIds(ids);
    }
  }

  /** A click on the bar itself or on a disabled entry changes nothing. */
  lemma ClickWithoutFilter(ids: seq<string>, nav: seq<NavEntry>, m: Marking, target: Option<nat>)
    requires target.Some? ==> target.value < |nav|
    requires target.None? || nav[target.value].filter.None?
    ensures ClickStep(ids, nav, m, target) == Outcome(m, None)
  {
  }

  /**
   * A click on an entry with a filter makes that entry the only active one.
   * The filter `*` activates every group but `no-match`. A filter that names
   * a group by a valid selector activates exactly that group, `no-match`
   * included. For a digit bucket the selector is invalid and no group is
   * left active.
   */
  lemma ClickCases(ids: seq<string>, nav: seq<NavEntry>, m: Marking, t: nat)
    requires t < |nav| && nav[t].filter.Some? && nav[t].filter.value != ""
    requires NoMatchId !in ids
    ensures var f := nav[t].filter.value; var r := ClickStep(ids, nav, m, Some(t));
      r.marking.buttons == {t} &&
      (f == "*" ==> r == Outcome(Marking(ToSet(ids), {t}), None)) &&
      (f != "*" && IdSelectorValid(EscapeFirstDash(f)) && f in AllIds(ids) ==> r == Outcome(Marking({f}, {t}), None)) &&
      (f == NoMatchId ==> r == Outcome(Marking({NoMatchId}, {t}), None)) &&
      (|f| == 1 && IsDigit(f[0]) ==> r == Outcome(Marking({}, {t}), Some(BadSelector(f))))
  {
    var f := nav[t].filter.value;
    if f == "*" {
      assert (set x | x in AllIds(ids) && x != NoMatchId) == ToSet(ids);
    }
    if f == NoMatchId {
      NoMatchSelector();
    }
    if |f| == 1 && IsDigit(f[0]) {
      SelectorOfKey(f);
      assert EscapeFirstDash(f) == f;
    }
  }

  /** Every click keeps at most one entry, and only existing groups, active. */
  lemma ClickKeepsWellMarked(ids: seq<string>, nav: seq<NavEntry>, m: Marking, target: Option<nat>)
    requires target.Some? ==> target.value < |nav|
    requires WellMarked(ids, nav, m)
    ensures WellMarked(ids, nav, ClickStep(ids, nav, m, target).marking)
  {
  }

  /** The initial state of a built navigator is well marked. */
  lemma InitialWellMarked(opts: Options, items: seq<Item>, ids: seq<string>, nav: seq<NavEntry>)
    requires Built(opts, items, ids, nav)
    ensures WellMarked(ids, nav, Initial(opts, AlphaObj(opts, items), ids, nav).marking)
  {
  }

  /** The ids of the new list: the wrapper ids in display order, then `no-match`. */
  lemma NewListIds(opts: Options, alphaObj: Buckets, gs: seq<Group>)
    requires |gs| == |alphaObj| + 1 && gs[|alphaObj|] == NoMatchGroup(opts)
    requires forall i :: 0 <= i < |alphaObj| ==> gs[i].id in alphaObj && gs[i] == WrapperOf(opts, alphaObj, gs[i].id)
    ensures var ids := GroupIds(gs[..|alphaObj|]);
      |ids| == |alphaObj| && GroupIds(gs) == AllIds(ids) &&
      forall i :: 0 <= i < |ids| ==> gs[i] == WrapperOf(opts, alphaObj, ids[i])
  {
    var n := |alphaObj|;
    var ids := GroupIds(gs[..n]);
    var a := GroupIds(gs);
    var b := AllIds(ids);
    assert |a| == |b|;
    forall i | 0 <= i < |a| ensures a[i] == b[i] {
      if i < n { assert gs[..n][i] == gs[i]; }
    }
    forall i | 0 <= i < |ids| ensures gs[i] == WrapperOf(opts, alphaObj, ids[i]) {
      assert ids[i] == gs[..n][i].id == gs[i].id;
    }
  }

  /**
   * The navigator: the list is replaced by its groups and the bar is put in
   * front of it (lines 58-76); the click listener is attached only when
   * `initAlphaListNav` returns normally (line 79).
   */
  class AlphaListNav {
    const options: Options
    const items: seq<Item>
    const alphaObj: Buckets
    const groups: seq<Group>
    const wrapperIds: seq<string>
    const nav: seq<NavEntry>
    var activeGroups: set<string>
    var activeButtons: set<nat>
    var listening: bool
    var initFailure: Option<Failure>

    ghost predicate Valid()
      reads this
    {
      WellMarked(wrapperIds, nav, Marking(activeGroups, activeButtons)) &&
      |groups| == |wrapperIds| + 1 && GroupIds(groups) == AllIds(wrapperIds)
    }

    /** The constructor and `init` (lines 4-76) for the items of the list and the merged options. */
    constructor (opts: Options, items: seq<Item>)
      ensures options == opts && this.items == items
      ensures alphaObj == AlphaObj(opts, items)
      ensures Built(opts, items, wrapperIds, nav)
      ensures |groups| == |wrapperIds| + 1
      ensures forall i :: 0 <= i < |wrapperIds| ==> groups[i] == WrapperOf(opts, alphaObj, wrapperIds[i])
      ensures groups[|wrapperIds|] == NoMatchGroup(opts)
      ensures Outcome(Marking(activeGroups, activeButtons), initFailure) == Initial(opts, alphaObj, wrapperIds, nav)
      ensures listening <==> initFailure.None?
      ensures Valid()
    {
      options := opts;
      this.items := items;
      var matcher := new PrefixMatcher(opts.prefixes);
      var obj := GetAlphaObj(opts, items, matcher);
      alphaObj := obj;
      var gs := GenerateNewList(opts, obj);
      groups := gs;
      var ids := GroupIds(gs[..|obj|]);
      wrapperIds := ids;
      var cs := GetCandidates(opts);
      nav := AlphaNav(opts, obj, cs);
      activeGroups := {};
      activeButtons := {};
      listening := false;
      initFailure := None;
      new;
      NewListIds(opts, obj, gs);
      InitialWellMarked(opts, items, wrapperIds, nav);
      var failure := InitAlphaListNav();
      initFailure := failure;
      listening := failure.None?;
    }

    /** All wrappers made active (lines 143-144 and 158-159). */
    method ActivateAllWrappers()
      modifies this
      ensures activeGroups == old(activeGroups) + ToSet(wrapperIds)
      ensures activeButtons == old(activeButtons) && listening == old(listening) && initFailure == old(initFailure)
    {
      var i := 0;
      while i < |wrapperIds|
        invariant 0 <= i <= |wrapperIds|
        invariant activeGroups == old(activeGroups) + ToSet(wrapperIds[..i])
        invariant activeButtons == old(activeButtons) && listening == old(listening) && initFailure == old(initFailure)
      {
        assert ToSet(wrapperIds[..i + 1]) == ToSet(wrapperIds[..i]) + {wrapperIds[i]} by {
          assert wrapperIds[..i + 1] == wrapperIds[..i] + [wrapperIds[i]];
        }
        activeGroups := activeGroups + {wrapperIds[i]};
        i := i + 1;
      }
      assert wrapperIds[..i] == wrapperIds;
    }

    /** `initAlphaListNav`, on markup where nothing is active yet. */
    method InitAlphaListNav() returns (failure: Option<Failure>)
      requires activeGroups == {} && activeButtons == {}
      modifies this
      ensures Outcome(Marking(activeGroups, activeButtons), failure) == Initial(options, alphaObj, wrapperIds, nav)
      ensures listening == old(listening) && initFailure == old(initFailure)
    {
      var allIds := AllIds(wrapperIds);
      if options.initLetter != "" {
        var l := Lower(options.initLetter);
        if options.initLetter == "*" && options.includeAll {
          var b := FindButton(nav, l);
          if b.None? {
            return Some(MissingControl(l));
          }
          activeButtons := activeButtons + {b.value};
          ActivateAllWrappers();
        } else if l in alphaObj {
          var b := FindButton(nav, l);
          if b.None? {
            return Some(MissingControl(l));
          }
          activeButtons := activeButtons + {b.value};
          if !IdSelectorValid(l) {
            return Some(BadSelector(l));
          }
          if l !in allIds {
            return Some(MissingGroup(l));
          }
          activeGroups := activeGroups + {l};
        }
      } else {
        if options.initHidden {
          if HiddenTextTruthy(options.initHiddenText) {
            if InitTextKey !in allIds {
              return Some(MissingGroup(InitTextKey));
            }
            activeGroups := activeGroups + {InitTextKey};
          }
        } else if options.includeAll {
          ActivateAllWrappers();
          var b := FindButton(nav, "*");
          if b.None? {
            return Some(MissingControl("*"));
          }
          activeButtons := activeButtons + {b.value};
        } else {
          var first := FirstLetter(alphaObj);
          if first.None? {
            return Some(NoPopulatedLetter);
          }
          var l := first.value;
          var b := FindButton(nav, l);
          if b.None? {
            return Some(MissingControl(l));
          }
          activeButtons := activeButtons + {b.value};
          if l !in allIds {
            return Some(MissingGroup(l));
          }
          activeGroups := activeGroups + {l};
        }
      }
      return None;
    }

    /** Lines 85-87: the `active` class removed from every entry of the bar. */
    method DeactivateButtons()
      requires forall b :: b in activeButtons ==> b < |nav|
      modifies this
      ensures activeButtons == {}
      ensures activeGroups == old(activeGroups) && listening == old(listening) && initFailure == old(initFailure)
    {
      var i := 0;
      while i < |nav|
        invariant 0 <= i <= |nav|
        invariant activeButtons <= old(activeButtons)
        invariant forall j :: 0 <= j < i ==> j !in activeButtons
        invariant activeGroups == old(activeGroups) && listening == old(listening) && initFailure == old(initFailure)
      {
        activeButtons := activeButtons - {i};
        i := i + 1;
      }
    }

    /** Lines 89-91: the `active` class removed from every child of the new list. */
    method DeactivateGroups()
      requires activeGroups <= ToSet(AllIds(wrapperIds))
      modifies this
      ensures activeGroups == {}
      ensures activeButtons == old(activeButtons) && listening == old(listening) && initFailure == old(initFailure)
    {
      var ids := AllIds(wrapperIds);
      var i := 0;
      while i < |ids|
        invariant 0 <= i <= |ids|
        invariant activeGroups <= old(activeGroups)
        invariant forall j :: 0 <= j < i ==> ids[j] !in activeGroups
        invariant activeButtons == old(activeButtons) && listening == old(listening) && initFailure == old(initFailure)
      {
        activeGroups := activeGroups - {ids[i]};
        i := i + 1;
      }
    }

    /** Lines 96-99: every child of the new list but `no-match` made active. */
    method ActivateAllButNoMatch()
      modifies this
      ensures activeGroups == old(activeGroups) + (set x | x in AllIds(wrapperIds) && x != NoMatchId)
      ensures activeButtons == old(activeButtons) && listening == old(listening) && initFailure == old(initFailure)
    {
      var ids := AllIds(wrapperIds);
      var i := 0;
      while i < |ids|
        invariant 0 <= i <= |ids|
        invariant activeGroups == old(activeGroups) + (set x | x in ids[..i] && x != NoMatchId)
        invariant activeButtons == old(activeButtons) && listening == old(listening) && initFailure == old(initFailure)
      {
        assert ids[..i + 1] == ids[..i] + [ids[i]];
        if ids[i] != NoMatchId {
          activeGroups := activeGroups + {ids[i]};
        }
        i := i + 1;
      }
      assert ids[..i] == ids;
    }

    /**
     * The click listener of lines 79-104. `target` is the position of the
     * clicked entry in the bar, or None for a click on the bar itself. The
     * result is the exception the listener throws, if any; before `init`
     * has attached the listener a click does nothing.
     */
    method Click(target: Option<nat>) returns (failure: Option<Failure>)
      requires Valid()
      requires target.Some? ==> target.value < |nav|
      modifies this
      ensures Valid()
      ensures !old(listening) ==> activeGroups == old(activeGroups) && activeButtons == old(activeButtons) && failure.None?
      ensures old(listening) ==>
                Outcome(Marking(activeGroups, activeButtons), failure) ==
                ClickStep(wrapperIds, nav, Marking(old(activeGroups), old(activeButtons)), target)
      ensures listening == old(listening) && initFailure == old(initFailure)
    {
      ClickKeepsWellMarked(wrapperIds, nav, Marking(activeGroups, activeButtons), target);
      if !listening || target.None? || nav[target.value].filter.None? || nav[target.value].filter.value == "" {
        return None;
      }
      var t := target.value;
      var letter := nav[t].filter.value;
      DeactivateButtons();
      DeactivateGroups();
      activeButtons := activeButtons + {t};
      if letter == "*" {
        ActivateAllButNoMatch();
        return None;
      }
      var sel := EscapeFirstDash(letter);
      if !IdSelectorValid(sel) {
        return Some(BadSelector(sel));
      }
      if letter !in AllIds(wrapperIds) {
        return Some(MissingGroup(letter));
      }
      activeGroups := activeGroups + {letter};
      return None;
    }
  }
}
