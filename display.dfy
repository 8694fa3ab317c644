/**
 * The new list (`_generateNewListHTML`, alphaListNav.js:257-304, and
 * `_getHeading`, 236-254): one group per bucket, in the order of the
 * comparator of lines 262-270, each with an optional heading, followed by
 * the `no-match` group.
 */
module Display {
  import opened Strings
  import opened Config
  import opened Bucketize

  /** The comparator passed to `sort` at lines 262-270. */
  function Compare(a: string, b: string): int
  {
    if a == "-" then 1
    else if b == "-" then -1
    else if LexLess(a, b) then -1
    else if LexLess(b, a) then 1
    else 0
  }

  /** `a` sorts before `b`. */
  predicate Before(a: string, b: string)
  {
    Compare(a, b) < 0
  }

  /**
   * On distinct keys the comparator is a strict total order: exactly one of
   * the two comes first, and `Compare` never returns 0.
   */
  lemma CompareTotal(a: string, b: string)
    requires a != b
    ensures Before(a, b) != Before(b, a)
    ensures Compare(a, b) != 0 && Compare(a, b) == -Compare(b, a)
  {
    LexLessTotal(a, b);
  }

  lemma CompareIrreflexive(a: string)
    ensures !Before(a, a)
  {
    LexLessIrreflexive(a);
  }

  lemma CompareTransitive(a: string, b: string, c: string)
    requires Before(a, b) && Before(b, c)
    ensures Before(a, c)
  {
    if c != "-" {
      LexLessTransitive(a, b, c);
    }
  }

  /** `-` comes after every other key. */
  lemma DashLast(k: string)
    requires k != "-"
    ensures Before(k, "-") && !Before("-", k)
  {
  }

  /** String order puts `initText` between the buckets `i` and `j`. */
  lemma InitTextBetweenIAndJ()
    ensures Before("i", InitTextKey) && Before(InitTextKey, "j")
  {
    assert InitTextKey[0] == 'i' && InitTextKey[1..] == "nitText";
    assert LexLess("i", InitTextKey);
    assert LexLess(InitTextKey, "j");
  }

  predicate StrictlySorted(s: seq<string>)
  {
    forall i, j :: 0 <= i < j < |s| ==> Before(s[i], s[j])
  }

  predicate Distinct(s: seq<string>)
  {
    forall i, j :: 0 <= i < j < |s| ==> s[i] != s[j]
  }

  /** Insert `x` into a sorted sequence in front of the first key it sorts before. */
  function Insert(x: string, s: seq<string>): seq<string>
  {
    if s == [] then [x]
    else if Before(x, s[0]) then [x] + s
    else [s[0]] + Insert(x, s[1..])
  }

  /** The keys sorted by the comparator (an insertion sort; on distinct keys any sort agrees with it). */
  function SortKeys(s: seq<string>): seq<string>
  {
    if s == [] then [] else Insert(s[0], SortKeys(s[1..]))
  }

  lemma {:induction false} InsertSpec(x: string, s: seq<string>)
    requires StrictlySorted(s) && x !in s
    ensures multiset(Insert(x, s)) == multiset(s) + multiset{x}
    ensures StrictlySorted(Insert(x, s))
    decreases |s|, 1
  {
    InsertPerm(x, s);
    if s != [] {
      if Before(x, s[0]) {
        forall j | 0 < j < |s| ensures Before(x, s[j]) {
          CompareTransitive(x, s[0], s[j]);
        }
      } else {
        InsertAfterHead(x, s);
      }
    }
  }

  /** Inserting a key that does not come before the head keeps the head first. */
  lemma {:induction false} InsertAfterHead(x: string, s: seq<string>)
    requires StrictlySorted(s) && x !in s && s != [] && !Before(x, s[0])
    ensures StrictlySorted(Insert(x, s))
    decreases |s|, 0
  {
    CompareTotal(x, s[0]);
    var t := s[1..];
    assert StrictlySorted(t);
    assert x !in t;
    InsertSpec(x, t);
    var r := Insert(x, t);
    forall j | 0 <= j < |r| ensures Before(s[0], r[j]) {
      assert r[j] in multiset(r);
      if r[j] != x {
        assert r[j] in multiset(t);
        var k :| 0 <= k < |t| && t[k] == r[j];
        assert s[k + 1] == t[k];
      }
    }
    assert Insert(x, s) == [s[0]] + r;
  }

  /**
   * Sorting keeps exactly the keys it is given, and on distinct keys it
   * yields them in strictly increasing comparator order.
   */
  lemma {:induction false} SortKeysSpec(s: seq<string>)
    ensures multiset(SortKeys(s)) == multiset(s)
    ensures Distinct(s) ==> StrictlySorted(SortKeys(s))
  {
    if s != [] {
      var t := s[1..];
      assert s == [s[0]] + t;
      SortKeysSpec(t);
      if Distinct(s) {
        assert Distinct(t);
        assert s[0] !in multiset(t);
        assert s[0] !in SortKeys(t);
        InsertSpec(s[0], SortKeys(t));
      } else {
        InsertPerm(s[0], SortKeys(t));
      }
    }
  }

  lemma {:induction false} InsertPerm(x: string, s: seq<string>)
    ensures multiset(Insert(x, s)) == multiset(s) + multiset{x}
  {
    if s != [] && !Before(x, s[0]) {
      InsertPerm(x, s[1..]);
      assert s == [s[0]] + s[1..];
    }
  }

  /** Two strictly sorted sequences of the same keys are equal: the sorted order of distinct keys is unique. */
  lemma {:induction false} SortedUnique(a: seq<string>, b: seq<string>)
    requires StrictlySorted(a) && StrictlySorted(b)
    requires forall x :: x in a <==> x in b
    ensures a == b
  {
    if a != [] { assert a[0] in a; }
    if b != [] { assert b[0] in b; }
    if a != [] && b != [] {
      assert a[0] in b;
      assert b[0] in a;
      if a[0] != b[0] {
        var i :| 0 <= i < |b| && b[i] == a[0];
        var j :| 0 <= j < |a| && a[j] == b[0];
        CompareTransitive(a[0], a[j], b[i]);
        CompareIrreflexive(a[0]);
        assert false;
      }
      forall x ensures x in a[1..] <==> x in b[1..] {
        CompareIrreflexive(a[0]);
        CompareIrreflexive(b[0]);
        if x in a[1..] {
          var i :| 1 <= i < |a| && a[i] == x;
          assert x != a[0];
          assert x in b;
        }
        if x in b[1..] {
          var i :| 1 <= i < |b| && b[i] == x;
          assert x != b[0];
          assert x in a;
        }
      }
      SortedUnique(a[1..], b[1..]);
      assert a == [a[0]] + a[1..] && b == [b[0]] + b[1..];
    }
  }

  /** `_getHeading` (lines 236-254). */
  function Heading(opts: Options, key: string): string
  {
    if key == "*" then opts.allText
    else if key == "_" then "0 - 9"
    else if key == "-" then "Others"
    else if key == InitTextKey then ""
    else Upper(key)
  }

  /** Lines 275-281: the `h3` a group gets, if any. */
  function HeadingShown(opts: Options, key: string): Option<string>
  {
    if opts.showLetterHeadings && Heading(opts, key) != "" then Some(Heading(opts, key)) else None
  }

  /**
   * On the keys a bucket map can have, the heading is empty only for
   * `initText`: a letter gives its upper case, a digit itself, `_` gives
   * "0 - 9" and `-` "Others".
   */
  lemma HeadingOfKey(opts: Options, key: string)
    requires key == InitTextKey || (|key| == 1 && IsKeyChar(key[0]))
    ensures Heading(opts, key) == "" <==> key == InitTextKey
    ensures |key| == 1 && IsLowerAscii(key[0]) ==> Heading(opts, key) == [UpperChar(key[0])] && IsUpperAscii(UpperChar(key[0]))
    ensures |key| == 1 && IsDigit(key[0]) ==> Heading(opts, key) == key
    ensures key == "_" ==> Heading(opts, key) == "0 - 9"
    ensures key == "-" ==> Heading(opts, key) == "Others"
    ensures Heading(opts, "*") == opts.allText
    ensures HeadingShown(opts, key).Some? <==> opts.showLetterHeadings && key != InitTextKey
  {
  }

  /** A `div.alpha-list-wrapper` (or the `no-match` div): its id, its heading and its list. */
  datatype Group = Group(id: string, heading: Option<string>, members: seq<Member>)

  const NoMatchId := "no-match"

  /** Lines 293-302: the last group, holding one item with `noMatchText`. */
  function NoMatchGroup(opts: Options): Group
  {
    Group(NoMatchId, None, [Placeholder(opts.noMatchText)])
  }

  /** The wrapper of bucket `key` (lines 272-291). */
  function WrapperOf(opts: Options, alphaObj: Buckets, key: string): Group
    requires key in alphaObj
  {
    Group(key, HeadingShown(opts, key), alphaObj[key])
  }

  function GroupIds(gs: seq<Group>): seq<string>
  {
    seq(|gs|, i requires 0 <= i < |gs| => gs[i].id)
  }

  /** `Object.keys`: every key once, in an order the model leaves open. */
  method ObjectKeys(m: Buckets) returns (ks: seq<string>)
    ensures Distinct(ks)
    ensures forall k :: k in ks <==> k in m
  {
    ks := [];
    var rest := m.Keys;
    while rest != {}
      invariant rest !! set k | k in ks
      invariant forall k :: k in m <==> k in rest || k in ks
      invariant Distinct(ks)
      decreases |rest|
    {
      var k :| k in rest;
      ks := ks + [k];
      rest := rest - {k};
    }
  }

  /**
   * `_generateNewListHTML`: the wrappers of all buckets in comparator order,
   * then the `no-match` group.
   */
  method GenerateNewList(opts: Options, alphaObj: Buckets) returns (groups: seq<Group>)
    ensures |groups| == |alphaObj| + 1
    ensures groups[|alphaObj|] == NoMatchGroup(opts)
    ensures StrictlySorted(GroupIds(groups[..|alphaObj|]))
    ensures forall k :: k in alphaObj <==> k in GroupIds(groups[..|alphaObj|])
    ensures forall i :: 0 <= i < |alphaObj| ==>
              groups[i].id in alphaObj && groups[i] == WrapperOf(opts, alphaObj, groups[i].id)
  {
    var ks := ObjectKeys(alphaObj);
    var order := SortKeys(ks);
    SortedKeysOf(alphaObj, ks);
    groups := seq(|order|, i requires 0 <= i < |order| => WrapperOf(opts, alphaObj, order[i]));
    assert GroupIds(groups) == order;
    groups := groups + [NoMatchGroup(opts)];
    assert groups[..|alphaObj|] == groups[..|order|];
  }

  /** Sorting the keys `Object.keys` lists gives every key of the map once, in comparator order. */
  lemma SortedKeysOf(alphaObj: Buckets, ks: seq<string>)
    requires Distinct(ks) && forall k :: k in ks <==> k in alphaObj
    ensures |SortKeys(ks)| == |alphaObj| && StrictlySorted(SortKeys(ks))
    ensures forall k :: k in SortKeys(ks) <==> k in alphaObj
  {
    var order := SortKeys(ks);
    SortKeysSpec(ks);
    forall k ensures k in order <==> k in ks {
      assert k in order <==> k in multiset(order);
      assert k in ks <==> k in multiset(ks);
    }
    assert |multiset(order)| == |multiset(ks)|;
    DistinctCount(ks, alphaObj.Keys);
  }

  /** A sequence without repeats that lists exactly the elements of `s` has `|s|` elements. */
  lemma {:induction false} DistinctCount(ks: seq<string>, s: set<string>)
    requires Distinct(ks)
    requires forall k :: k in ks <==> k in s
    ensures |ks| == |s|
    decreases |ks|
  {
    if ks != [] {
      var last := ks[|ks| - 1];
      var init := ks[..|ks| - 1];
      assert last !in init;
      forall k ensures k in init <==> k in s - {last} {
        if k in init {
          var i :| 0 <= i < |init| && init[i] == k;
          assert ks[i] == k;
        }
        if k in s - {last} {
          var i :| 0 <= i < |ks| && ks[i] == k;
          assert i < |ks| - 1;
          assert init[i] == k;
        }
      }
      DistinctCount(init, s - {last});
    }
  }
}
