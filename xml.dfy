/**
 * The parsed package document as lxml presents it to the metadata layer:
 * elements with a Clark-notation tag (`{uri}local`), an attribute map,
 * optional text and child elements, and the root's namespace map, whose
 * `None` key is the default namespace.
 *
 * Elements are values; the model refers to a particular child by its
 * position in its parent's list of children.
 */
module Xml {
  import opened Common
  import opened Strings
  import opened Seqs

  type NsMap = map<Option<string>, string>

  datatype Element = Element(tag: string, attrib: map<string, string>, text: Option<string>, children: seq<Element>)

  datatype Tree = Tree(nsmap: NsMap, root: Element)

  /** The tag lxml gives an element named `local` in namespace `uri`. */
  function QualifiedTag(uri: string, local: string): (t: string)
    ensures |t| == |uri| + |local| + 2
    ensures t[0] == '{' && t[1..|uri| + 1] == uri && t[|uri| + 1] == '}' && t[|uri| + 2..] == local
  {
    "{" + uri + "}" + local
  }

  /** The tests the source applies to a child while scanning. */
  datatype Selector =
    | TagIs(tag: string)            // fkey == el.tag
    | TagContains(word: string)     // word in el.tag
    | NameIs(key: string)           // key == el.attrib['name']
    | Both(first: Selector, second: Selector)

  predicate Matches(sel: Selector, e: Element) {
    match sel
    case TagIs(t) => e.tag == t
    case TagContains(w) => Contains(e.tag, w)
    case NameIs(k) => "name" in e.attrib && e.attrib["name"] == k
    case Both(a, b) => Matches(a, e) && Matches(b, e)
  }

  /** A list comprehension `[el for el in es if <sel>]`. */
  function Filter(es: seq<Element>, sel: Selector): (r: seq<Element>)
    ensures forall e :: e in r ==> Matches(sel, e)
    ensures forall e :: multiset(r)[e] == if Matches(sel, e) then multiset(es)[e] else 0
    ensures IsSubsequence(r, es)
  {
    if es == [] then []
    else
      assert es == [es[0]] + es[1..];
      var rest := Filter(es[1..], sel);
      if Matches(sel, es[0]) then
        assert ([es[0]] + rest)[1..] == rest;
        [es[0]] + rest
      else
        rest
  }

  /** Position of the first child that matches. */
  function First(es: seq<Element>, sel: Selector): (r: Option<nat>)
    ensures r.Some? ==> r.value < |es| && Matches(sel, es[r.value])
    ensures r.Some? ==> forall j :: 0 <= j < r.value ==> !Matches(sel, es[j])
    ensures r.None? ==> forall j :: 0 <= j < |es| ==> !Matches(sel, es[j])
  {
    if es == [] then None
    else if Matches(sel, es[0]) then Some(0)
    else match First(es[1..], sel)
      case Some(i) => Some(i + 1)
      case None => None
  }

  /** Position of the last child that matches: what a `for` loop assigning without `break` keeps. */
  function Last(es: seq<Element>, sel: Selector): (r: Option<nat>)
    ensures r.Some? ==> r.value < |es| && Matches(sel, es[r.value])
    ensures r.Some? ==> forall j :: r.value < j < |es| ==> !Matches(sel, es[j])
    ensures r.None? ==> forall j :: 0 <= j < |es| ==> !Matches(sel, es[j])
    decreases |es|
  {
    if es == [] then None
    else if Matches(sel, es[|es| - 1]) then Some(|es| - 1)
    else Last(es[..|es| - 1], sel)
  }

  /** The head of a comprehension is the first match. */
  lemma {:induction false} FilterHead(es: seq<Element>, sel: Selector)
    ensures (Filter(es, sel) != []) == First(es, sel).Some?
    ensures First(es, sel).Some? ==> Filter(es, sel)[0] == es[First(es, sel).value]
  {
    if es != [] {
      if Matches(sel, es[0]) {
        assert Filter(es, sel) == [es[0]] + Filter(es[1..], sel);
      } else {
        FilterHead(es[1..], sel);
        assert Filter(es, sel) == Filter(es[1..], sel);
      }
    }
  }

  /** Filtering twice is filtering once by both tests. */
  lemma {:induction false} FilterBoth(es: seq<Element>, a: Selector, b: Selector)
    ensures Filter(Filter(es, a), b) == Filter(es, Both(a, b))
  {
    if es != [] {
      FilterBoth(es[1..], a, b);
      if Matches(a, es[0]) {
        assert Filter(es, a) == [es[0]] + Filter(es[1..], a);
        assert Filter(es, a)[1..] == Filter(es[1..], a);
      }
    }
  }

  /** Where the first match of a concatenation lies. */
  lemma {:induction false} FirstAppend(a: seq<Element>, b: seq<Element>, sel: Selector)
    ensures First(a + b, sel) ==
      match First(a, sel)
      case Some(i) => Some(i)
      case None => (match First(b, sel) case Some(j) => Some(|a| + j) case None => None)
    decreases |a|
  {
    if a == [] {
      assert a + b == b;
    } else {
      assert (a + b)[0] == a[0];
      assert (a + b)[1..] == a[1..] + b;
      FirstAppend(a[1..], b, sel);
    }
  }

  /** A match at `i` and at `j > i`: the first match is no later than `i`, the last no earlier than `j`. */
  lemma FirstBeforeLast(es: seq<Element>, sel: Selector, i: nat, j: nat)
    requires i < j < |es| && Matches(sel, es[i]) && Matches(sel, es[j])
    ensures First(es, sel).Some? && First(es, sel).value <= i
    ensures Last(es, sel).Some? && j <= Last(es, sel).value
    ensures First(es, sel) != Last(es, sel)
  {
  }

  // --------------------------------------------------- changing an element's text

  /** Two lists of children that agree everywhere except possibly in text. */
  predicate SameShape(a: seq<Element>, b: seq<Element>) {
    && |a| == |b|
    && forall i :: 0 <= i < |a| ==> a[i].tag == b[i].tag && a[i].attrib == b[i].attrib
  }

  lemma {:induction false} MatchesShape(sel: Selector, x: Element, y: Element)
    requires x.tag == y.tag && x.attrib == y.attrib
    ensures Matches(sel, x) == Matches(sel, y)
  {
    match sel
    case Both(a, b) =>
      MatchesShape(a, x, y);
      MatchesShape(b, x, y);
    case _ =>
  }

  /** Scans that test only tags and attributes do not see text. */
  lemma {:induction false} ScansIgnoreText(a: seq<Element>, b: seq<Element>, sel: Selector)
    requires SameShape(a, b)
    ensures First(a, sel) == First(b, sel)
    ensures Last(a, sel) == Last(b, sel)
    decreases |a|
  {
    if a != [] {
      var n := |a| - 1;
      MatchesShape(sel, a[0], b[0]);
      MatchesShape(sel, a[n], b[n]);
      ScansIgnoreText(a[1..], b[1..], sel);
      ScansIgnoreText(a[..n], b[..n], sel);
    }
  }

  /**
   * The tree after `el.text = text`, where `el` is child `j` of the root's
   * child `m`: that one text changes and nothing else.
   */
  function SetChildText(t: Tree, m: nat, j: nat, text: Option<string>): (r: Tree)
    requires m < |t.root.children| && j < |t.root.children[m].children|
    ensures r.nsmap == t.nsmap
    ensures r.root.tag == t.root.tag && r.root.attrib == t.root.attrib && r.root.text == t.root.text
    ensures SameShape(r.root.children, t.root.children)
    ensures forall k :: 0 <= k < |t.root.children| && k != m ==> r.root.children[k] == t.root.children[k]
    ensures var c, c' := t.root.children[m], r.root.children[m];
      && c'.text == c.text
      && SameShape(c'.children, c.children)
      && (forall i :: 0 <= i < |c.children| && i != j ==> c'.children[i] == c.children[i])
      && c'.children[j].text == text
      && c'.children[j].children == c.children[j].children
  {
    var c := t.root.children[m];
    var c' := c.(children := c.children[j := c.children[j].(text := text)]);
    t.(root := t.root.(children := t.root.children[m := c']))
  }
}
