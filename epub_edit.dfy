/**
 * The in-place edits of `epub_metadata/epub.py`: `remove_book_sequence`
 * drops the first entry for each series key from the `<metadata>` element,
 * and `set_book_sequence` appends a fresh calibre pair after that.
 *
 * The specification functions work on the list of children; the class
 * `MetadataContainer` holds that list and changes it in place, as the lxml
 * element does.
 */
module EpubEdit {
  import opened Common
  import opened Strings
  import opened Seqs
  import opened Xml
  import opened Epub

  /** The children after `content.getparent().remove(content)` for the first entry named `key`, if any. */
  function RemoveFirstMeta(nsmap: NsMap, md: seq<Element>, key: string): (r: seq<Element>)
    requires NamesPresent(nsmap, md)
    ensures NamesPresent(nsmap, r)
    ensures IsSubsequence(r, md)
    ensures |r| == |md| - (if FirstMeta(nsmap, md, key).Some? then 1 else 0)
    ensures multiset(r) == multiset(md) -
      (if FirstMeta(nsmap, md, key).Some? then multiset{md[FirstMeta(nsmap, md, key).value]} else multiset{})
    ensures FirstMeta(nsmap, md, key).Some? ==>
      var i := FirstMeta(nsmap, md, key).value;
      r[..i] == md[..i] && r[i..] == md[i + 1..]
    ensures FirstMeta(nsmap, md, key).None? ==> r == md
  {
    match FirstMeta(nsmap, md, key)
    case None =>
      SubsequenceRefl(md);
      md
    case Some(i) =>
      RemoveAtFacts(nsmap, md, i);
      md[..i] + md[i + 1..]
  }

  lemma RemoveAtFacts(nsmap: NsMap, md: seq<Element>, i: nat)
    requires i < |md| && NamesPresent(nsmap, md)
    ensures var r := md[..i] + md[i + 1..];
      && NamesPresent(nsmap, r)
      && IsSubsequence(r, md)
      && multiset(r) == multiset(md) - multiset{md[i]}
  {
    var r := md[..i] + md[i + 1..];
    DeleteAtSubsequence(md, i);
    assert md == md[..i] + [md[i]] + md[i + 1..];
    forall k | 0 <= k < |r| ensures r[k] == md[if k < i then k else k + 1] {
    }
  }

  /** Removal takes nothing but one entry named `key`: every other element keeps its multiplicity. */
  lemma RemoveKeepsOthers(nsmap: NsMap, md: seq<Element>, key: string, e: Element)
    requires NamesPresent(nsmap, md) && !IsMetaEntry(nsmap, e, key)
    ensures multiset(RemoveFirstMeta(nsmap, md, key))[e] == multiset(md)[e]
  {
  }

  /** No entry named `key` at any pair of distinct positions. */
  predicate AtMostOneMeta(nsmap: NsMap, md: seq<Element>, key: string) {
    forall i, j :: 0 <= i < j < |md| && IsMetaEntry(nsmap, md[i], key) ==> !IsMetaEntry(nsmap, md[j], key)
  }

  /** With at most one entry named `key`, removal leaves none. */
  lemma RemoveUnique(nsmap: NsMap, md: seq<Element>, key: string)
    requires NamesPresent(nsmap, md) && AtMostOneMeta(nsmap, md, key)
    ensures FirstMeta(nsmap, RemoveFirstMeta(nsmap, md, key), key).None?
  {
    var r := RemoveFirstMeta(nsmap, md, key);
    match FirstMeta(nsmap, md, key)
    case None =>
    case Some(i) =>
      forall k | 0 <= k < |r| ensures !IsMetaEntry(nsmap, r[k], key) {
        if k < i {
          assert r[k] == md[k];
        } else {
          assert r[k] == md[k + 1];
        }
      }
  }

  /** Removal for one key creates no entry for another. */
  lemma RemoveKeepsAbsent(nsmap: NsMap, md: seq<Element>, key: string, other: string)
    requires NamesPresent(nsmap, md) && FirstMeta(nsmap, md, other).None?
    ensures FirstMeta(nsmap, RemoveFirstMeta(nsmap, md, key), other).None?
  {
    var r := RemoveFirstMeta(nsmap, md, key);
    forall k | 0 <= k < |r| ensures !IsMetaEntry(nsmap, r[k], other) {
      assert r[k] in multiset(r);
      assert r[k] in md;
    }
  }

  /** Removal keeps positions in order, so it keeps a key unique. */
  lemma RemoveKeepsUnique(nsmap: NsMap, md: seq<Element>, key: string, other: string)
    requires NamesPresent(nsmap, md) && AtMostOneMeta(nsmap, md, other)
    ensures AtMostOneMeta(nsmap, RemoveFirstMeta(nsmap, md, key), other)
  {
    var r := RemoveFirstMeta(nsmap, md, key);
    match FirstMeta(nsmap, md, key)
    case None =>
    case Some(i) =>
      forall p, q | 0 <= p < q < |r| && IsMetaEntry(nsmap, r[p], other)
        ensures !IsMetaEntry(nsmap, r[q], other)
      {
        var p', q' := if p < i then p else p + 1, if q < i then q else q + 1;
        assert r[p] == md[p'] && r[q] == md[q'] && p' < q';
      }
  }

  /** `remove_book_sequence`: the legacy entry, then the calibre series, then the calibre index. */
  function WithoutSequence(nsmap: NsMap, md: seq<Element>): (r: seq<Element>)
    requires NamesPresent(nsmap, md)
    ensures NamesPresent(nsmap, r)
    ensures IsSubsequence(r, md)
    ensures |md| - 3 <= |r| <= |md|
    ensures None !in nsmap ==> r == md
  {
    var a := RemoveFirstMeta(nsmap, md, META_FB2_SEQ);
    var b := RemoveFirstMeta(nsmap, a, META_CALIBRE_SEQ);
    var c := RemoveFirstMeta(nsmap, b, META_CALIBRE_INX);
    SubsequenceTrans(c, b, a);
    SubsequenceTrans(c, a, md);
    c
  }

  /** The elements that are not one of the three series entries stay, with their multiplicity. */
  lemma WithoutSequenceKeepsOthers(nsmap: NsMap, md: seq<Element>, e: Element)
    requires NamesPresent(nsmap, md)
    requires !IsMetaEntry(nsmap, e, META_FB2_SEQ) && !IsMetaEntry(nsmap, e, META_CALIBRE_SEQ)
    requires !IsMetaEntry(nsmap, e, META_CALIBRE_INX)
    ensures multiset(WithoutSequence(nsmap, md))[e] == multiset(md)[e]
  {
    var a := RemoveFirstMeta(nsmap, md, META_FB2_SEQ);
    var b := RemoveFirstMeta(nsmap, a, META_CALIBRE_SEQ);
    RemoveKeepsOthers(nsmap, md, META_FB2_SEQ, e);
    RemoveKeepsOthers(nsmap, a, META_CALIBRE_SEQ, e);
    RemoveKeepsOthers(nsmap, b, META_CALIBRE_INX, e);
  }

  /** Each of the three keys with at most one entry before removal has none after it. */
  predicate SequenceEntriesUnique(nsmap: NsMap, md: seq<Element>) {
    && AtMostOneMeta(nsmap, md, META_FB2_SEQ)
    && AtMostOneMeta(nsmap, md, META_CALIBRE_SEQ)
    && AtMostOneMeta(nsmap, md, META_CALIBRE_INX)
  }

  predicate NoSequenceEntries(nsmap: NsMap, md: seq<Element>) {
    && FirstMeta(nsmap, md, META_FB2_SEQ).None?
    && FirstMeta(nsmap, md, META_CALIBRE_SEQ).None?
    && FirstMeta(nsmap, md, META_CALIBRE_INX).None?
  }

  /** When every series key occurs at most once, the removal clears them all. */
  lemma WithoutSequenceClears(nsmap: NsMap, md: seq<Element>)
    requires NamesPresent(nsmap, md) && SequenceEntriesUnique(nsmap, md)
    ensures NoSequenceEntries(nsmap, WithoutSequence(nsmap, md))
  {
    var a := RemoveFirstMeta(nsmap, md, META_FB2_SEQ);
    var b := RemoveFirstMeta(nsmap, a, META_CALIBRE_SEQ);
    RemoveUnique(nsmap, md, META_FB2_SEQ);
    RemoveKeepsUnique(nsmap, md, META_FB2_SEQ, META_CALIBRE_SEQ);
    RemoveKeepsUnique(nsmap, md, META_FB2_SEQ, META_CALIBRE_INX);
    RemoveUnique(nsmap, a, META_CALIBRE_SEQ);
    RemoveKeepsAbsent(nsmap, a, META_CALIBRE_SEQ, META_FB2_SEQ);
    RemoveKeepsUnique(nsmap, a, META_CALIBRE_SEQ, META_CALIBRE_INX);
    RemoveUnique(nsmap, b, META_CALIBRE_INX);
    RemoveKeepsAbsent(nsmap, b, META_CALIBRE_INX, META_FB2_SEQ);
    RemoveKeepsAbsent(nsmap, b, META_CALIBRE_INX, META_CALIBRE_SEQ);
  }

  // ------------------------------------------------------------ appending

  /** `etree.SubElement(metadata, tag)` with `name` and `content` assigned. */
  function NewMeta(tag: string, name: string, content: string): (e: Element)
    ensures e.attrib.Keys == {"name", "content"}
    ensures e.attrib["name"] == name && e.attrib["content"] == content
    ensures e.tag == tag && e.text.None? && e.children == []
  {
    Element(tag, map["name" := name, "content" := content], None, [])
  }

  /** `set_book_sequence` as written: the two appended elements carry the bare tag `meta`. */
  function WithSequence(nsmap: NsMap, md: seq<Element>, series: string, num: int): (r: seq<Element>)
    requires NamesPresent(nsmap, md)
    ensures |r| == |WithoutSequence(nsmap, md)| + 2
    ensures r[..|r| - 2] == WithoutSequence(nsmap, md)
    ensures r[|r| - 2] == NewMeta("meta", META_CALIBRE_SEQ, series)
    ensures r[|r| - 1] == NewMeta("meta", META_CALIBRE_INX, IntToString(num))
  {
    WithoutSequence(nsmap, md) + [NewMeta("meta", META_CALIBRE_SEQ, series), NewMeta("meta", META_CALIBRE_INX, IntToString(num))]
  }

  /** The tag the lookups compare against: `{<default namespace>}meta`, or `meta` without one. */
  function MetaTag(nsmap: NsMap): string {
    if None in nsmap then QualifiedTag(nsmap[None], "meta") else "meta"
  }

  /** An element tagged `MetaTag` is found by the lookup exactly under its own name. */
  lemma MetaTagFound(nsmap: NsMap, name: string, content: string, key: string)
    ensures IsMetaEntry(nsmap, NewMeta(MetaTag(nsmap), name, content), key) <==> None in nsmap && name == key
  {
    var e := NewMeta(MetaTag(nsmap), name, content);
    assert "name" in e.attrib && e.attrib["name"] == name;
    if None in nsmap {
      assert Matches(TagIs(QualifiedTag(nsmap[None], "meta")), e);
      assert Matches(NameIs(key), e) == (name == key);
      assert Matches(MetaSelector(nsmap, key), e) == (name == key);
    }
  }

  /** `set_book_sequence` with the appended elements in the default namespace. */
  function WithSequenceQualified(nsmap: NsMap, md: seq<Element>, series: string, num: int): (r: seq<Element>)
    requires NamesPresent(nsmap, md)
    ensures |r| == |WithoutSequence(nsmap, md)| + 2
    ensures r[..|r| - 2] == WithoutSequence(nsmap, md)
    ensures r[|r| - 2] == NewMeta(MetaTag(nsmap), META_CALIBRE_SEQ, series)
    ensures r[|r| - 1] == NewMeta(MetaTag(nsmap), META_CALIBRE_INX, IntToString(num))
  {
    WithoutSequence(nsmap, md) + [NewMeta(MetaTag(nsmap), META_CALIBRE_SEQ, series), NewMeta(MetaTag(nsmap), META_CALIBRE_INX, IntToString(num))]
  }

  /** The appended pair holds the series and the decimal index that `int()` reads back. */
  lemma AppendedEntries(nsmap: NsMap, md: seq<Element>, series: string, num: int)
    requires NamesPresent(nsmap, md)
    ensures var r := WithSequence(nsmap, md, series, num);
      && r[|r| - 2].attrib["content"] == series
      && IsIntLiteral(r[|r| - 1].attrib["content"])
      && ParseInt(r[|r| - 1].attrib["content"]) == num
  {
    IntRoundTrip(num);
  }

  /** A bare `meta` element is never a default-namespace `meta` entry. */
  lemma BareTagIsNotMeta(nsmap: NsMap, name: string, content: string, key: string)
    ensures !IsMetaEntry(nsmap, NewMeta("meta", name, content), key)
  {
    if None in nsmap {
      var q := QualifiedTag(nsmap[None], "meta");
      assert |q| > 4 == |"meta"|;
      assert !Matches(TagIs(q), NewMeta("meta", name, content));
    }
  }

  // ------------------------------------------------------------ as written

  /** The lookups do not see what `set_book_sequence` appended: they find what the removal left. */
  lemma SetThenGetMisses(nsmap: NsMap, md: seq<Element>, series: string, num: int, key: string)
    requires NamesPresent(nsmap, md)
    ensures FirstMeta(nsmap, WithSequence(nsmap, md, series, num), key) == FirstMeta(nsmap, WithoutSequence(nsmap, md), key)
  {
    var w := WithoutSequence(nsmap, md);
    var tail := [NewMeta("meta", META_CALIBRE_SEQ, series), NewMeta("meta", META_CALIBRE_INX, IntToString(num))];
    BareTagIsNotMeta(nsmap, META_CALIBRE_SEQ, series, key);
    BareTagIsNotMeta(nsmap, META_CALIBRE_INX, IntToString(num), key);
    if None in nsmap {
      FirstAppend(w, tail, MetaSelector(nsmap, key));
    }
  }

  /** So a book whose series entries were unique reads back no series at all after the edit. */
  lemma SetThenGetLosesSeries(nsmap: NsMap, md: seq<Element>, series: string, num: int)
    requires NamesPresent(nsmap, md) && SequenceEntriesUnique(nsmap, md)
    ensures var r := WithSequence(nsmap, md, series, num);
      SequenceDefined(nsmap, r) && GetBookSequence(nsmap, r) == BookSequence("", -1)
  {
    var r := WithSequence(nsmap, md, series, num);
    WithoutSequenceClears(nsmap, md);
    SetThenGetMisses(nsmap, md, series, num, META_FB2_SEQ);
    SetThenGetMisses(nsmap, md, series, num, META_CALIBRE_SEQ);
    SetThenGetMisses(nsmap, md, series, num, META_CALIBRE_INX);
    NamesAfterAppend(nsmap, WithoutSequence(nsmap, md), "meta", series, num);
    NoEntriesNoSeries(nsmap, r);
  }

  /** Appending two named elements keeps every scanned `meta` child named. */
  lemma NamesAfterAppend(nsmap: NsMap, w: seq<Element>, tag: string, series: string, num: int)
    requires NamesPresent(nsmap, w)
    ensures NamesPresent(nsmap, w + [NewMeta(tag, META_CALIBRE_SEQ, series), NewMeta(tag, META_CALIBRE_INX, IntToString(num))])
  {
    var r := w + [NewMeta(tag, META_CALIBRE_SEQ, series), NewMeta(tag, META_CALIBRE_INX, IntToString(num))];
    assert forall k :: 0 <= k < |w| ==> r[k] == w[k];
  }

  /** Setting twice does not replace the first pair: the children grow by two more elements. */
  lemma SetTwiceGrows(nsmap: NsMap, md: seq<Element>, series: string, num: int)
    requires NamesPresent(nsmap, md) && SequenceEntriesUnique(nsmap, md)
    ensures var once := WithSequence(nsmap, md, series, num);
      NamesPresent(nsmap, once) && WithSequence(nsmap, once, series, num) == once + once[|once| - 2..]
  {
    var w := WithoutSequence(nsmap, md);
    var once := WithSequence(nsmap, md, series, num);
    NamesAfterAppend(nsmap, w, "meta", series, num);
    WithoutSequenceClears(nsmap, md);
    SetThenGetMisses(nsmap, md, series, num, META_FB2_SEQ);
    SetThenGetMisses(nsmap, md, series, num, META_CALIBRE_SEQ);
    SetThenGetMisses(nsmap, md, series, num, META_CALIBRE_INX);
    NothingToRemove(nsmap, once);
  }

  /** Without series entries the removal changes nothing. */
  lemma NothingToRemove(nsmap: NsMap, md: seq<Element>)
    requires NamesPresent(nsmap, md) && NoSequenceEntries(nsmap, md)
    ensures WithoutSequence(nsmap, md) == md
  {
  }

  // ------------------------------------------------------------ corrected

  /** The first entry of two appended elements. */
  lemma FirstOfPair(nsmap: NsMap, w: seq<Element>, x: Element, y: Element, key: string)
    requires FirstMeta(nsmap, w, key).None?
    ensures FirstMeta(nsmap, w + [x, y], key) ==
      if IsMetaEntry(nsmap, x, key) then Some(|w|)
      else if IsMetaEntry(nsmap, y, key) then Some(|w| + 1)
      else None
  {
    if None in nsmap {
      var sel := MetaSelector(nsmap, key);
      assert [x, y][1..] == [y];
      assert [y][1..] == [];
      FirstAppend(w, [x, y], sel);
    }
  }

  /** With the qualified tag, the lookups find the appended pair. */
  lemma QualifiedAppendFound(nsmap: NsMap, w: seq<Element>, series: string, num: int)
    requires None in nsmap && NoSequenceEntries(nsmap, w)
    ensures var r := w + [NewMeta(MetaTag(nsmap), META_CALIBRE_SEQ, series), NewMeta(MetaTag(nsmap), META_CALIBRE_INX, IntToString(num))];
      && FirstMeta(nsmap, r, META_CALIBRE_SEQ) == Some(|w|)
      && FirstMeta(nsmap, r, META_CALIBRE_INX) == Some(|w| + 1)
      && FirstMeta(nsmap, r, META_FB2_SEQ).None?
  {
    var x, y := NewMeta(MetaTag(nsmap), META_CALIBRE_SEQ, series), NewMeta(MetaTag(nsmap), META_CALIBRE_INX, IntToString(num));
    KeysDistinct();
    MetaTagFound(nsmap, META_CALIBRE_SEQ, series, META_CALIBRE_SEQ);
    MetaTagFound(nsmap, META_CALIBRE_SEQ, series, META_CALIBRE_INX);
    MetaTagFound(nsmap, META_CALIBRE_SEQ, series, META_FB2_SEQ);
    MetaTagFound(nsmap, META_CALIBRE_INX, IntToString(num), META_CALIBRE_INX);
    MetaTagFound(nsmap, META_CALIBRE_INX, IntToString(num), META_FB2_SEQ);
    FirstOfPair(nsmap, w, x, y, META_CALIBRE_SEQ);
    FirstOfPair(nsmap, w, x, y, META_CALIBRE_INX);
    FirstOfPair(nsmap, w, x, y, META_FB2_SEQ);
  }

  /** What the lookups read from the children after the corrected edit. */
  lemma QualifiedContents(nsmap: NsMap, w: seq<Element>, series: string, num: int)
    requires None in nsmap && NamesPresent(nsmap, w) && NoSequenceEntries(nsmap, w)
    ensures var r := w + [NewMeta(MetaTag(nsmap), META_CALIBRE_SEQ, series), NewMeta(MetaTag(nsmap), META_CALIBRE_INX, IntToString(num))];
      && NamesPresent(nsmap, r)
      && ContentAtFirst(nsmap, r, META_CALIBRE_SEQ) && GetMetadataExt(nsmap, r, META_CALIBRE_SEQ) == Some(series)
      && ContentAtFirst(nsmap, r, META_CALIBRE_INX) && GetMetadataExt(nsmap, r, META_CALIBRE_INX) == Some(IntToString(num))
      && ContentAtFirst(nsmap, r, META_FB2_SEQ) && GetMetadataExt(nsmap, r, META_FB2_SEQ).None?
  {
    var r := w + [NewMeta(MetaTag(nsmap), META_CALIBRE_SEQ, series), NewMeta(MetaTag(nsmap), META_CALIBRE_INX, IntToString(num))];
    NamesAfterAppend(nsmap, w, MetaTag(nsmap), series, num);
    QualifiedAppendFound(nsmap, w, series, num);
    assert r[|w|] == NewMeta(MetaTag(nsmap), META_CALIBRE_SEQ, series);
    assert r[|w| + 1] == NewMeta(MetaTag(nsmap), META_CALIBRE_INX, IntToString(num));
  }

  /** Set, then get: the resolver returns exactly the pair that was set. */
  lemma SetQualifiedRoundTrip(nsmap: NsMap, md: seq<Element>, series: string, num: int)
    requires None in nsmap && NamesPresent(nsmap, md) && SequenceEntriesUnique(nsmap, md)
    ensures var r := WithSequenceQualified(nsmap, md, series, num);
      SequenceDefined(nsmap, r) && GetBookSequence(nsmap, r) == BookSequence(series, num)
  {
    var w := WithoutSequence(nsmap, md);
    WithoutSequenceClears(nsmap, md);
    QualifiedContents(nsmap, w, series, num);
    IntRoundTrip(num);
  }

  /** Setting the same pair twice leaves the children as setting it once. */
  lemma SetQualifiedIdempotent(nsmap: NsMap, md: seq<Element>, series: string, num: int)
    requires None in nsmap && NamesPresent(nsmap, md) && SequenceEntriesUnique(nsmap, md)
    ensures var once := WithSequenceQualified(nsmap, md, series, num);
      NamesPresent(nsmap, once) && WithSequenceQualified(nsmap, once, series, num) == once
  {
    var w := WithoutSequence(nsmap, md);
    var x, y := NewMeta(MetaTag(nsmap), META_CALIBRE_SEQ, series), NewMeta(MetaTag(nsmap), META_CALIBRE_INX, IntToString(num));
    var once := WithSequenceQualified(nsmap, md, series, num);
    assert once == w + [x, y];
    WithoutSequenceClears(nsmap, md);
    NamesAfterAppend(nsmap, w, MetaTag(nsmap), series, num);
    QualifiedAppendFound(nsmap, w, series, num);
    var a := RemoveFirstMeta(nsmap, once, META_FB2_SEQ);
    assert a == once;
    var b := RemoveFirstMeta(nsmap, a, META_CALIBRE_SEQ);
    assert b == w + [y];
    NamesAfterAppendOne(nsmap, w, y);
    QualifiedLastFound(nsmap, w, y);
    var c := RemoveFirstMeta(nsmap, b, META_CALIBRE_INX);
    assert c == w;
  }

  lemma NamesAfterAppendOne(nsmap: NsMap, w: seq<Element>, y: Element)
    requires NamesPresent(nsmap, w) && "name" in y.attrib
    ensures NamesPresent(nsmap, w + [y])
  {
    assert forall k :: 0 <= k < |w| ==> (w + [y])[k] == w[k];
  }

  lemma QualifiedLastFound(nsmap: NsMap, w: seq<Element>, y: Element)
    requires IsMetaEntry(nsmap, y, META_CALIBRE_INX) && FirstMeta(nsmap, w, META_CALIBRE_INX).None?
    ensures FirstMeta(nsmap, w + [y], META_CALIBRE_INX) == Some(|w|)
  {
    assert [y][1..] == [];
    FirstAppend(w, [y], MetaSelector(nsmap, META_CALIBRE_INX));
  }

  // ------------------------------------------------------------ the element

  /** The `<metadata>` element whose children the edits change in place. */
  class MetadataContainer {
    var children: seq<Element>

    constructor(children: seq<Element>)
      ensures this.children == children
    {
      this.children := children;
    }

    /** `items = get_meta_item(...); if len(items) > 0: remove(items[0])`. */
    method RemoveFirst(nsmap: NsMap, key: string)
      requires NamesPresent(nsmap, children)
      modifies this
      ensures children == RemoveFirstMeta(nsmap, old(children), key)
    {
      var items := GetMetaItem(nsmap, children, key);
      GetMetaItemHead(nsmap, children, key);
      if |items| > 0 {
        var i := FirstMeta(nsmap, children, key).value;
        children := children[..i] + children[i + 1..];
      }
    }

    /** `remove_book_sequence`. */
    method RemoveBookSequence(nsmap: NsMap)
      requires NamesPresent(nsmap, children)
      modifies this
      ensures children == WithoutSequence(nsmap, old(children))
    {
      RemoveFirst(nsmap, META_FB2_SEQ);
      RemoveFirst(nsmap, META_CALIBRE_SEQ);
      RemoveFirst(nsmap, META_CALIBRE_INX);
    }

    /** `set_book_sequence` as written. */
    method SetBookSequence(nsmap: NsMap, series: string, num: int)
      requires NamesPresent(nsmap, children)
      modifies this
      ensures children == WithSequence(nsmap, old(children), series, num)
    {
      RemoveBookSequence(nsmap);
      children := children + [NewMeta("meta", META_CALIBRE_SEQ, series)];
      children := children + [NewMeta("meta", META_CALIBRE_INX, IntToString(num))];
    }

    /** `set_book_sequence` appending default-namespace `meta` elements. */
    method SetBookSequenceQualified(nsmap: NsMap, series: string, num: int)
      requires NamesPresent(nsmap, children)
      modifies this
      ensures children == WithSequenceQualified(nsmap, old(children), series, num)
    {
      RemoveBookSequence(nsmap);
      children := children + [NewMeta(MetaTag(nsmap), META_CALIBRE_SEQ, series)];
      children := children + [NewMeta(MetaTag(nsmap), META_CALIBRE_INX, IntToString(num))];
    }
  }
}
