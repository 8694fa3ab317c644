/**
 * Text extraction (`_getText`, alphaListNav.js:110-135): the plain text of
 * a DOM node, or of an array of nodes.
 */
module TextExtract {
  import opened Strings

  /**
   * What `_getText` looks at. A `DomNode` carries its `nodeType`, its
   * `nodeValue` (read for text and CDATA nodes), its `textContent` (None when
   * the property is not a string) and its children in sibling order. An
   * `ArrayLike` value has no `nodeType`; its items are read by index until
   * the first null or undefined one (None).
   */
  datatype Node =
    | DomNode(nodeType: int, nodeValue: string, textContent: Option<string>, children: seq<Node>)
    | ArrayLike(items: seq<Option<Node>>)

  const ElementNode := 1
  const TextNode := 3
  const CDataNode := 4
  const CommentNode := 8
  const DocumentNode := 9
  const FragmentNode := 11

  predicate IsContainerType(t: int) { t == ElementNode || t == DocumentNode || t == FragmentNode }
  predicate IsCharDataType(t: int) { t == TextNode || t == CDataNode }

  /**
   * The value `_getText` returns. A node whose `nodeType` is 0 counts as
   * having none and is read as an array; it has no indexed items, so it
   * yields "".
   */
  function TextOf(n: Node): string
    decreases n, 1
  {
    match n
    case ArrayLike(_) => ItemsText(n, 0)
    case DomNode(t, v, tc, cs) =>
      if t == 0 then ""
      else if IsContainerType(t) then (if tc.Some? then tc.value else ChildrenText(cs))
      else if IsCharDataType(t) then v
      else ""
  }

  /** The texts of sibling nodes, concatenated in order. */
  function ChildrenText(cs: seq<Node>): string
  {
    if cs == [] then "" else TextOf(cs[0]) + ChildrenText(cs[1..])
  }

  /** The texts of the items of `arr` from index `i` on, up to the first missing item. */
  function ItemsText(arr: Node, i: nat): string
    requires arr.ArrayLike?
    decreases arr, 0, |arr.items| - i
  {
    if i >= |arr.items| || arr.items[i].None? then ""
    else TextOf(arr.items[i].value) + ItemsText(arr, i + 1)
  }

  /** `_getText` as written: a recursive walk with a `while` loop over
      array items and a `for` loop over children. */
  method GetText(n: Node) returns (r: string)
    ensures r == TextOf(n)
    decreases n, 1
  {
    match n {
      case ArrayLike(_) =>
        r := GetItemsText(n);
      case DomNode(t, v, tc, cs) =>
        if t == 0 {
          r := "";
        } else if IsContainerType(t) {
          if tc.Some? {
            r := tc.value;
          } else {
            r := GetChildrenText(n);
          }
        } else if IsCharDataType(t) {
          r := v;
        } else {
          r := "";
        }
    }
  }

  /** The loop of `_getText` over the items of an array-like value, up to the first missing one. */
  method GetItemsText(arr: Node) returns (r: string)
    requires arr.ArrayLike?
    ensures r == ItemsText(arr, 0)
    decreases arr, 0
  {
    r := "";
    var i := 0;
    while i < |arr.items| && arr.items[i].Some?
      invariant 0 <= i <= |arr.items|
      invariant ItemsText(arr, 0) == r + ItemsText(arr, i)
    {
      var t := GetText(arr.items[i].value);
      r := r + t;
      i := i + 1;
    }
  }

  /** The loop of `_getText` over the children of a node, first child to last sibling. */
  method GetChildrenText(elem: Node) returns (r: string)
    requires elem.DomNode?
    ensures r == ChildrenText(elem.children)
    decreases elem, 0
  {
    var cs := elem.children;
    r := "";
    var i := 0;
    while i < |cs|
      invariant 0 <= i <= |cs|
      invariant ChildrenText(cs) == r + ChildrenText(cs[i..])
    {
      assert cs[i..][1..] == cs[i + 1..];
      var s := GetText(cs[i]);
      r := r + s;
      i := i + 1;
    }
  }

  /** Text of a list of siblings is the concatenation of the texts of its parts. */
  lemma {:induction false} ChildrenTextAppend(a: seq<Node>, b: seq<Node>)
    ensures ChildrenText(a + b) == ChildrenText(a) + ChildrenText(b)
  {
    if a == [] {
      assert a + b == b;
    } else {
      assert (a + b)[1..] == a[1..] + b;
      ChildrenTextAppend(a[1..], b);
    }
  }

  /**
   * Inside an element that has no string `textContent`, a comment (or any
   * node that is not an element, document, fragment, text or CDATA node)
   * contributes nothing: removing it leaves the text unchanged.
   */
  lemma CommentsContributeNothing(t: int, v: string, before: seq<Node>, c: Node, after: seq<Node>)
    requires IsContainerType(t)
    requires c.DomNode? && !IsContainerType(c.nodeType) && !IsCharDataType(c.nodeType)
    ensures TextOf(DomNode(t, v, None, before + [c] + after)) == TextOf(DomNode(t, v, None, before + after))
  {
    ChildrenTextAppend(before + [c], after);
    ChildrenTextAppend(before, [c]);
    ChildrenTextAppend(before, after);
  }

  /** The items of `arr` from index `i` up to (not including) index `k`, unwrapped. */
  function Present(arr: Node, i: nat, k: nat): seq<Node>
    requires arr.ArrayLike? && i <= k <= |arr.items|
    requires forall j :: i <= j < k ==> arr.items[j].Some?
    decreases k - i
  {
    if i == k then [] else [arr.items[i].value] + Present(arr, i + 1, k)
  }

  /**
   * An array yields the in-order concatenation of the texts of its items up
   * to the first missing one (index `k`, or the end), whatever follows it.
   */
  lemma {:induction false} ArrayTextStopsAtFirstMissing(arr: Node, i: nat, k: nat)
    requires arr.ArrayLike? && i <= k <= |arr.items|
    requires forall j :: i <= j < k ==> arr.items[j].Some?
    requires k < |arr.items| ==> arr.items[k].None?
    ensures ItemsText(arr, i) == ChildrenText(Present(arr, i, k))
    decreases k - i
  {
    if i < k {
      ArrayTextStopsAtFirstMissing(arr, i + 1, k);
      assert ([arr.items[i].value] + Present(arr, i + 1, k))[1..] == Present(arr, i + 1, k);
    }
  }
}
