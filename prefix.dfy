/**
 * The prefix matcher (alphaListNav.js:37-48, 199-208). The string rules in
 * `options.prefixes` become `rule + "\s"` and are joined with `|` into one
 * regular expression with the flags `gi`. Classifying a text runs `exec` on
 * that shared expression. On a match the classification character is the
 * one at the expression's `lastIndex`, the end of the match. Otherwise it is
 * the first character.
 *
 * Rules are literal strings: line 40 escapes only the FIRST regular
 * expression metacharacter of a rule, so a rule with at most one
 * metacharacter turns into a literal pattern. (Some rules with more, such as
 * `}}`, would stay literal too; they are not admitted.)
 */
module Prefix {
  import opened Strings

  /** The characters of the class `[.*+?^${}()|[\]\\]` at line 40. */
  predicate IsMeta(c: char)
  {
    c == '.' || c == '*' || c == '+' || c == '?' || c == '^' || c == '$' || c == '{' || c == '}' ||
    c == '(' || c == ')' || c == '|' || c == '[' || c == ']' || c == '\\'
  }

  function MetaCount(s: string): nat
  {
    if s == [] then 0 else (if IsMeta(s[0]) then 1 else 0) + MetaCount(s[1..])
  }

  /** A string rule that, once its first metacharacter is escaped, matches itself literally. */
  type LiteralRule = r: string | MetaCount(r) <= 1

  /** The class `\s` of ECMAScript regular expressions: white space and line terminators. */
  predicate IsRegExpSpace(c: char)
  {
    c == '\t' || c == '\n' || c == '\U{B}' || c == '\U{C}' || c == '\r' || c == ' ' ||
    c == '\U{A0}' || c == '\U{1680}' || ('\U{2000}' <= c <= '\U{200A}') ||
    c == '\U{2028}' || c == '\U{2029}' || c == '\U{202F}' || c == '\U{205F}' ||
    c == '\U{3000}' || c == '\U{FEFF}'
  }

  /** Characters equal under the `i` flag (ASCII case folding). */
  predicate SameIgnoringCase(a: char, b: char)
  {
    UpperChar(a) == UpperChar(b)
  }

  /** The alternative `rule\s` matches `text` starting at position `p`. */
  predicate RuleMatchesAt(rule: string, text: string, p: nat)
  {
    p + |rule| < |text| &&
    (forall j :: 0 <= j < |rule| ==> SameIgnoringCase(text[p + j], rule[j])) &&
    IsRegExpSpace(text[p + |rule|])
  }

  /**
   * The alternation tried at position `p`: the first rule, in the order
   * given, that matches there. The result is the end of the match.
   */
  function MatchAt(rules: seq<LiteralRule>, text: string, p: nat): Option<nat>
  {
    if rules == [] then None
    else if RuleMatchesAt(rules[0], text, p) then Some(p + |rules[0]| + 1)
    else MatchAt(rules[1..], text, p)
  }

  /** The unanchored search of `exec`: the leftmost position at or after `from` where the alternation matches. */
  function Find(rules: seq<LiteralRule>, text: string, from: nat): Option<nat>
    decreases |text| + 1 - from
  {
    if from > |text| then None
    else if MatchAt(rules, text, from).Some? then Some(from)
    else Find(rules, text, from + 1)
  }

  /** The end of the match `exec` finds from position `from`. */
  function Search(rules: seq<LiteralRule>, text: string, from: nat): Option<nat>
  {
    match Find(rules, text, from)
    case Some(p) => MatchAt(rules, text, p)
    case None => None
  }

  /** The alternation picks the first rule, in rule order, that matches at `p`. */
  lemma {:induction false} MatchAtIsFirstRule(rules: seq<LiteralRule>, text: string, p: nat)
    ensures MatchAt(rules, text, p).None? <==>
              forall k :: 0 <= k < |rules| ==> !RuleMatchesAt(rules[k], text, p)
    ensures MatchAt(rules, text, p).Some? ==>
              exists k :: 0 <= k < |rules| && RuleMatchesAt(rules[k], text, p) &&
                MatchAt(rules, text, p).value == p + |rules[k]| + 1 &&
                forall j :: 0 <= j < k ==> !RuleMatchesAt(rules[j], text, p)
  {
    if rules != [] && !RuleMatchesAt(rules[0], text, p) {
      MatchAtIsFirstRule(rules[1..], text, p);
      if MatchAt(rules, text, p).Some? {
        var k :| 0 <= k < |rules| - 1 && RuleMatchesAt(rules[1..][k], text, p) &&
                 MatchAt(rules[1..], text, p).value == p + |rules[1..][k]| + 1 &&
                 forall j :: 0 <= j < k ==> !RuleMatchesAt(rules[1..][j], text, p);
        assert RuleMatchesAt(rules[k + 1], text, p);
        assert forall j :: 0 <= j < k + 1 ==> !RuleMatchesAt(rules[j], text, p) by {
          forall j | 0 <= j < k + 1 ensures !RuleMatchesAt(rules[j], text, p) {
            if j > 0 { assert rules[j] == rules[1..][j - 1]; }
          }
        }
      } else {
        forall k | 0 <= k < |rules| ensures !RuleMatchesAt(rules[k], text, p) {
          if k > 0 { assert rules[k] == rules[1..][k - 1]; }
        }
      }
    }
  }

  /** Nothing can match beyond the end of the text (a match needs a white-space character). */
  lemma NoMatchPastEnd(rules: seq<LiteralRule>, text: string, p: nat)
    requires p >= |text|
    ensures MatchAt(rules, text, p).None?
  {
    MatchAtIsFirstRule(rules, text, p);
  }

  /** `exec` finds the leftmost position at or after `from` where the alternation matches. */
  lemma {:induction false} FindIsLeftmost(rules: seq<LiteralRule>, text: string, from: nat)
    ensures Find(rules, text, from).Some? ==>
              var p := Find(rules, text, from).value;
              from <= p && MatchAt(rules, text, p).Some? &&
              forall q: nat :: from <= q < p ==> MatchAt(rules, text, q).None?
    ensures Find(rules, text, from).None? ==>
              forall p: nat :: from <= p ==> MatchAt(rules, text, p).None?
    decreases |text| + 1 - from
  {
    if from > |text| {
      forall p: nat | from <= p ensures MatchAt(rules, text, p).None? {
        NoMatchPastEnd(rules, text, p);
      }
    } else if MatchAt(rules, text, from).None? {
      FindIsLeftmost(rules, text, from + 1);
    }
  }

  /** A text with no match from its start has none from any later position. */
  lemma SearchMissFromStart(rules: seq<LiteralRule>, text: string, from: nat)
    requires Search(rules, text, 0).None?
    ensures Search(rules, text, from).None?
  {
    FindIsLeftmost(rules, text, 0);
    FindIsLeftmost(rules, text, from);
  }

  /**
   * Lines 199-208 for one text, given the shared expression's `lastIndex`
   * on entry: the classification character (before lower-casing) and the
   * `lastIndex` left behind. With no rules no expression exists.
   */
  function ClassCharStep(rules: seq<LiteralRule>, text: string, lastIndex: nat): (string, nat)
  {
    if |rules| == 0 then (CharAt(text, 0), lastIndex)
    else match Search(rules, text, lastIndex)
      case Some(e) => (CharAt(text, e), e)
      case None => (CharAt(text, 0), 0)
  }

  /** The stateless classification character: the step taken with a fresh expression. */
  function ClassChar(rules: seq<LiteralRule>, text: string): string
  {
    if |rules| == 0 then CharAt(text, 0)
    else match Search(rules, text, 0)
      case Some(e) => CharAt(text, e)
      case None => CharAt(text, 0)
  }

  /**
   * With no rule matching anywhere (in particular with no rules) the
   * classification character is the first one. Otherwise it is the
   * character right after the leftmost match, wherever in the text that
   * match lies: the search is not anchored at the start.
   */
  lemma PrefixOffset(rules: seq<LiteralRule>, text: string)
    ensures |ClassChar(rules, text)| <= 1
    ensures (forall p: nat :: MatchAt(rules, text, p).None?) ==> ClassChar(rules, text) == CharAt(text, 0)
    ensures forall p: nat :: MatchAt(rules, text, p).Some? &&
                             (forall q: nat :: q < p ==> MatchAt(rules, text, q).None?) ==>
                             ClassChar(rules, text) == CharAt(text, MatchAt(rules, text, p).value)
  {
    FindIsLeftmost(rules, text, 0);
    if Find(rules, text, 0).Some? {
      var p0 := Find(rules, text, 0).value;
      assert rules != [];
      forall p: nat | MatchAt(rules, text, p).Some? && (forall q: nat :: q < p ==> MatchAt(rules, text, q).None?)
        ensures p == p0
      {
      }
    }
  }

  /**
   * The compiled expression of line 47 with its `lastIndex` state, which
   * the `g` flag makes persist from one `exec` to the next.
   */
  class PrefixMatcher {
    const rules: seq<LiteralRule>
    var lastIndex: nat

    constructor (rules: seq<LiteralRule>)
      ensures this.rules == rules && lastIndex == 0
    {
      this.rules := rules;
      lastIndex := 0;
    }

    /**
     * `RegExp.prototype.exec` on a global expression: search from
     * `lastIndex`; on success `lastIndex` becomes the end of the match, on
     * failure it is reset to 0.
     */
    method Exec(text: string) returns (m: Option<nat>)
      modifies this
      ensures m == Search(rules, text, old(lastIndex))
      ensures m.Some? ==> lastIndex == m.value && old(lastIndex) < m.value <= |text|
      ensures m.None? ==> lastIndex == 0
      ensures m.None? ==> forall p :: old(lastIndex) <= p ==> MatchAt(rules, text, p).None?
    {
      m := Search(rules, text, lastIndex);
      FindIsLeftmost(rules, text, lastIndex);
      if m.Some? {
        MatchAtIsFirstRule(rules, text, Find(rules, text, lastIndex).value);
        lastIndex := m.value;
      } else {
        lastIndex := 0;
      }
    }

    /** Lines 199-205: `exec`, then read the character at `lastIndex`, or the first one. */
    method Classify(text: string) returns (c: string)
      requires |rules| > 0
      modifies this
      ensures (c, lastIndex) == ClassCharStep(rules, text, old(lastIndex))
      ensures old(lastIndex) == 0 ==> c == ClassChar(rules, text)
    {
      var m := Exec(text);
      if m.Some? {
        c := CharAt(text, lastIndex);
      } else {
        c := CharAt(text, 0);
      }
    }
  }
}
