/**
 * The navigation bar (`_generateAlphaNav`, alphaListNav.js:307-354, with
 * `_getArrayAtoZ` and `_getArray0to9`, 357-367): one entry per candidate
 * character, populated, disabled or pointing at `no-match`, in candidate
 * order. The entries stand for the `<a>` elements the source writes as HTML.
 */
module Navigation {
  import opened Strings
  import opened Config
  import opened Bucketize

  /** `_getArrayAtoZ`: the strings "A" to "Z". */
  function AtoZ(): seq<string>
  {
    seq(26, i requires 0 <= i < 26 => [(65 + i) as char])
  }

  /** `_getArray0to9`: the numbers 0 to 9. */
  function ZeroToNine(): seq<nat>
  {
    seq(10, i requires 0 <= i < 10 => i)
  }

  /** `Number.prototype.toString` on a single digit. */
  function DigitString(n: nat): string
    requires n < 10
  {
    [(48 + n) as char]
  }

  /** The strings "0" to "9". */
  function Numerals(): seq<string>
  {
    seq(10, i requires 0 <= i < 10 => DigitString(i))
  }

  /** The candidates ahead of the letters (lines 312-318). */
  function NumeralCandidates(opts: Options): seq<string>
  {
    if !opts.includeNums then []
    else if opts.concatenateNums then ["_"]
    else Numerals()
  }

  /** The candidate characters, in navigation order. */
  function CandidateList(opts: Options): seq<string>
  {
    NumeralCandidates(opts) + AtoZ()
  }

  /** The letters are exactly the one-character upper-case strings, in increasing code order. */
  lemma AtoZSpec()
    ensures |AtoZ()| == 26
    ensures forall c :: c in AtoZ() <==> |c| == 1 && IsUpperAscii(c[0])
    ensures forall i, j :: 0 <= i < j < 26 ==> AtoZ()[i][0] < AtoZ()[j][0]
  {
    forall c | |c| == 1 && IsUpperAscii(c[0]) ensures c in AtoZ() {
      var i := c[0] as int - 65;
      assert AtoZ()[i] == c;
    }
  }

  /**
   * Lines 311-318: the letters, with the numerals put in front by
   * `unshift`. Without `concatenateNums` the digits 9 down to 0 are
   * unshifted one at a time, which leaves them in ascending order.
   */
  method GetCandidates(opts: Options) returns (abcChars: seq<string>)
    ensures abcChars == CandidateList(opts)
  {
    abcChars := AtoZ();
    if opts.includeNums {
      if !opts.concatenateNums {
        var nums := ZeroToNine();
        var reversed := seq(10, i requires 0 <= i < 10 => nums[9 - i]);
        var i := 0;
        while i < 10
          invariant 0 <= i <= 10
          invariant abcChars == Numerals()[10 - i..] + AtoZ()
        {
          assert [DigitString(reversed[i])] + Numerals()[10 - i..] == Numerals()[10 - (i + 1)..];
          abcChars := [DigitString(reversed[i])] + abcChars;
          i := i + 1;
        }
      } else {
        abcChars := ["_"] + abcChars;
      }
    }
  }

  /**
   * Every candidate is one character: a letter, a digit or `_`; so `-` and
   * `*` never are.
   */
  lemma CandidateChars(opts: Options)
    ensures forall c :: c in CandidateList(opts) ==> |c| == 1 && (IsUpperAscii(c[0]) || IsDigit(c[0]) || c == "_")
    ensures "-" !in CandidateList(opts) && "*" !in CandidateList(opts)
  {
    var cs := CandidateList(opts);
    var n := NumeralCandidates(opts);
    forall c | c in cs ensures |c| == 1 && (IsUpperAscii(c[0]) || IsDigit(c[0]) || c == "_") {
      var i :| 0 <= i < |cs| && cs[i] == c;
      if i >= |n| { assert c == AtoZ()[i - |n|]; }
    }
  }

  /** `_` is a candidate exactly when both `includeNums` and `concatenateNums` are set. */
  lemma UnderscoreCandidate(opts: Options)
    ensures "_" in CandidateList(opts) <==> opts.includeNums && opts.concatenateNums
  {
    var cs := CandidateList(opts);
    var n := NumeralCandidates(opts);
    if "_" in cs {
      var i :| 0 <= i < |cs| && cs[i] == "_";
      assert i < |n|;
    }
  }

  /** The digits are candidates exactly when `includeNums` is set without `concatenateNums`. */
  lemma DigitCandidates(opts: Options, c: string)
    requires |c| == 1 && IsDigit(c[0])
    ensures c in CandidateList(opts) <==> opts.includeNums && !opts.concatenateNums
  {
    var cs := CandidateList(opts);
    var n := NumeralCandidates(opts);
    if opts.includeNums && !opts.concatenateNums {
      assert Numerals()[c[0] as int - 48] == c;
      assert cs[c[0] as int - 48] == c;
    }
    if c in cs {
      var i :| 0 <= i < |cs| && cs[i] == c;
      assert i < |n| by {
        forall j | |n| <= j < |cs| ensures IsUpperAscii(cs[j][0]) {
          assert cs[j] == AtoZ()[j - |n|];
        }
      }
    }
  }

  /**
   * No candidate lower-cases to `-`, nor to a digit when `includeNums` is
   * unset.
   */
  lemma NoCandidateFor(opts: Options, l: string)
    requires |l| == 1 && ((IsDigit(l[0]) && !opts.includeNums) || l == "-")
    ensures forall c :: c in CandidateList(opts) ==> Lower(c) != l
  {
    CandidateChars(opts);
    if IsDigit(l[0]) { DigitCandidates(opts, l); }
    forall c | c in CandidateList(opts) ensures Lower(c) != l {
      assert Lower(c)[0] == LowerChar(c[0]);
    }
  }

  /** Every letter is a candidate. */
  lemma LetterCandidates(opts: Options, c: string)
    requires |c| == 1 && IsUpperAscii(c[0])
    ensures c in CandidateList(opts)
  {
    var n := NumeralCandidates(opts);
    var i := c[0] as int - 65;
    assert AtoZ()[i] == c;
    assert CandidateList(opts)[|n| + i] == c;
  }

  /** Lower-cased, the candidates are distinct, so no two entries share a filter other than `no-match`. */
  lemma CandidatesDistinct(opts: Options)
    ensures forall i, j :: 0 <= i < j < |CandidateList(opts)| ==> Lower(CandidateList(opts)[i]) != Lower(CandidateList(opts)[j])
  {
    var cs := CandidateList(opts);
    var n := NumeralCandidates(opts);
    CandidateChars(opts);
    forall i, j | 0 <= i < j < |cs| ensures Lower(cs[i]) != Lower(cs[j]) {
      assert Lower(cs[i])[0] == LowerChar(cs[i][0]) && Lower(cs[j])[0] == LowerChar(cs[j][0]);
      if j < |n| {
        assert cs[i] == n[i] && cs[j] == n[j];
      } else if i >= |n| {
        assert cs[i] == AtoZ()[i - |n|] && cs[j] == AtoZ()[j - |n|];
      } else {
        assert cs[i] == n[i] && cs[j] == AtoZ()[j - |n|];
      }
    }
  }

  /** How an entry is drawn: coloured with a filter, greyed out with none, or pointing at `no-match`. */
  datatype Status = Populated | Disabled | Unmatched

  /** An `<a class="character-element">`: its text, how it is drawn, and its `data-filter`. */
  datatype NavEntry = NavEntry(caption: string, status: Status, filter: Option<string>)

  /** The text of a populated or disabled entry. */
  function Label(c: string): string
  {
    if c == "_" then "0 - 9" else if c == "-" then "..." else c
  }

  /** Lines 326-350: the entry of one candidate, or None when it is removed. */
  function NavFor(opts: Options, alphaObj: Buckets, c: string): Option<NavEntry>
  {
    if Lower(c) in alphaObj then Some(NavEntry(Label(c), Populated, Some(Lower(c))))
    else if opts.flagDisabled then
      (if opts.removeDisabled then None else Some(NavEntry(Label(c), Disabled, None)))
    else Some(NavEntry(c, Unmatched, Some("no-match")))
  }

  /** The `reduce` of lines 324-351 over the candidates. */
  function AlphaNav(opts: Options, alphaObj: Buckets, cs: seq<string>): seq<NavEntry>
  {
    if cs == [] then []
    else
      var rest := AlphaNav(opts, alphaObj, cs[..|cs| - 1]);
      match NavFor(opts, alphaObj, cs[|cs| - 1])
      case Some(e) => rest + [e]
      case None => rest
  }

  /** The candidates that get an entry, in order. */
  function Shown(opts: Options, alphaObj: Buckets, cs: seq<string>): seq<string>
  {
    if cs == [] then []
    else Shown(opts, alphaObj, cs[..|cs| - 1]) + (if NavFor(opts, alphaObj, cs[|cs| - 1]).Some? then [cs[|cs| - 1]] else [])
  }

  /**
   * The enabled/disabled policy, candidate by candidate. A candidate whose
   * lower case is a bucket key is populated, with that key as its filter and
   * `0 - 9` as the label of `_`. Otherwise, with `flagDisabled` it is
   * removed when `removeDisabled` is set and disabled without a filter when
   * not; without `flagDisabled` it points at `no-match` under its raw text.
   */
  lemma NavPolicy(opts: Options, alphaObj: Buckets, c: string)
    ensures NavFor(opts, alphaObj, c).Some? && NavFor(opts, alphaObj, c).value.status == Populated <==> Lower(c) in alphaObj
    ensures Lower(c) in alphaObj ==> NavFor(opts, alphaObj, c).value.filter == Some(Lower(c))
    ensures Lower(c) in alphaObj ==>
              NavFor(opts, alphaObj, c).value.caption == (if c == "_" then "0 - 9" else if c == "-" then "..." else c)
    ensures NavFor(opts, alphaObj, c).None? <==> Lower(c) !in alphaObj && opts.flagDisabled && opts.removeDisabled
    ensures Lower(c) !in alphaObj && opts.flagDisabled && !opts.removeDisabled ==>
              NavFor(opts, alphaObj, c).value.status == Disabled && NavFor(opts, alphaObj, c).value.filter.None?
    ensures Lower(c) !in alphaObj && !opts.flagDisabled ==>
              NavFor(opts, alphaObj, c) == Some(NavEntry(c, Unmatched, Some("no-match")))
  {
  }

  /** One entry per shown candidate, in order: the entry `NavFor` gives it. */
  lemma {:induction false} NavEntriesOfShown(opts: Options, alphaObj: Buckets, cs: seq<string>)
    ensures |AlphaNav(opts, alphaObj, cs)| == |Shown(opts, alphaObj, cs)|
    ensures forall i :: 0 <= i < |Shown(opts, alphaObj, cs)| ==>
              Some(AlphaNav(opts, alphaObj, cs)[i]) == NavFor(opts, alphaObj, Shown(opts, alphaObj, cs)[i])
  {
    if cs != [] {
      NavEntriesOfShown(opts, alphaObj, cs[..|cs| - 1]);
    }
  }

  /** Unless disabled entries are removed, every candidate is shown. */
  lemma {:induction false} ShownAll(opts: Options, alphaObj: Buckets, cs: seq<string>)
    requires !(opts.flagDisabled && opts.removeDisabled)
    ensures Shown(opts, alphaObj, cs) == cs
  {
    if cs != [] {
      var init := cs[..|cs| - 1];
      ShownAll(opts, alphaObj, init);
      assert NavFor(opts, alphaObj, cs[|cs| - 1]).Some?;
      assert Shown(opts, alphaObj, cs) == init + [cs[|cs| - 1]];
      assert cs == init + [cs[|cs| - 1]];
    }
  }

  /** When disabled entries are removed, exactly the populated candidates are shown. */
  lemma {:induction false} ShownPopulated(opts: Options, alphaObj: Buckets, cs: seq<string>)
    requires opts.flagDisabled && opts.removeDisabled
    ensures forall c :: c in Shown(opts, alphaObj, cs) <==> c in cs && Lower(c) in alphaObj
  {
    if cs != [] {
      var init := cs[..|cs| - 1];
      ShownPopulated(opts, alphaObj, init);
      forall c ensures c in Shown(opts, alphaObj, cs) <==> c in cs && Lower(c) in alphaObj {
        if c in cs && c !in init { assert c == cs[|cs| - 1]; }
        if c in init { assert c in cs; }
      }
    }
  }

  /**
   * The entries follow the candidates in order: one entry for each shown
   * candidate, which is every candidate unless disabled entries are removed,
   * and then exactly the populated ones.
   */
  lemma NavFollowsCandidates(opts: Options, alphaObj: Buckets, cs: seq<string>)
    ensures |AlphaNav(opts, alphaObj, cs)| == |Shown(opts, alphaObj, cs)|
    ensures forall i :: 0 <= i < |Shown(opts, alphaObj, cs)| ==>
              Some(AlphaNav(opts, alphaObj, cs)[i]) == NavFor(opts, alphaObj, Shown(opts, alphaObj, cs)[i])
    ensures !(opts.flagDisabled && opts.removeDisabled) ==> Shown(opts, alphaObj, cs) == cs
    ensures opts.flagDisabled && opts.removeDisabled ==>
              forall c :: c in Shown(opts, alphaObj, cs) <==> c in cs && Lower(c) in alphaObj
  {
    NavEntriesOfShown(opts, alphaObj, cs);
    if opts.flagDisabled && opts.removeDisabled {
      ShownPopulated(opts, alphaObj, cs);
    } else {
      ShownAll(opts, alphaObj, cs);
    }
  }

  /**
   * A filter names a bucket or `no-match`, and never `*`: the source does
   * not emit the "all" entry.
   */
  lemma {:induction false} FiltersTarget(opts: Options, alphaObj: Buckets, cs: seq<string>)
    requires forall c :: c in cs ==> c != "*"
    requires "*" !in alphaObj
    ensures forall i :: 0 <= i < |AlphaNav(opts, alphaObj, cs)| && AlphaNav(opts, alphaObj, cs)[i].filter.Some? ==>
              AlphaNav(opts, alphaObj, cs)[i].filter.value in alphaObj ||
              AlphaNav(opts, alphaObj, cs)[i].filter.value == "no-match"
    ensures forall i :: 0 <= i < |AlphaNav(opts, alphaObj, cs)| ==> AlphaNav(opts, alphaObj, cs)[i].filter != Some("*")
  {
    if cs != [] {
      var init := cs[..|cs| - 1];
      assert forall c :: c in init ==> c in cs;
      FiltersTarget(opts, alphaObj, init);
    }
  }

  /** Every filter other than `no-match` is the lower case of some candidate. */
  lemma {:induction false} FiltersFromCandidates(opts: Options, alphaObj: Buckets, cs: seq<string>)
    ensures forall i :: 0 <= i < |AlphaNav(opts, alphaObj, cs)| && AlphaNav(opts, alphaObj, cs)[i].filter.Some? &&
                        AlphaNav(opts, alphaObj, cs)[i].filter.value != "no-match" ==>
              exists c :: c in cs && Lower(c) == AlphaNav(opts, alphaObj, cs)[i].filter.value
  {
    if cs != [] {
      var init := cs[..|cs| - 1];
      assert forall c :: c in init ==> c in cs;
      assert cs[|cs| - 1] in cs;
      FiltersFromCandidates(opts, alphaObj, init);
    }
  }
}
