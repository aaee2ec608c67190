/**
 * The metadata accessors and the series resolver of `epub_metadata/epub.py`.
 *
 * `metadata` is the list of children of the OPF `<metadata>` element and
 * `nsmap` the namespace map of the document root. Extension entries are the
 * children whose tag is `{<default namespace>}meta`; the standard fields are
 * the children in the namespace bound to the prefix `dc`.
 */
module Epub {
  import opened Common
  import opened Strings
  import opened Seqs
  import opened Xml

  const META_FB2_SEQ: string := "FB2.book-info.sequence"
  const META_CALIBRE_SEQ: string := "calibre:series"
  const META_CALIBRE_INX: string := "calibre:series_index"

  lemma KeysDistinct()
    ensures META_FB2_SEQ != META_CALIBRE_SEQ && META_FB2_SEQ != META_CALIBRE_INX
    ensures META_CALIBRE_SEQ != META_CALIBRE_INX
  {
    assert |META_FB2_SEQ| == 22 && |META_CALIBRE_SEQ| == 14 && |META_CALIBRE_INX| == 20;
  }

  /** `[el for el in metadata if '{' + nsmap[ns] + '}' + key == el.tag]`, or `[]` for an unknown prefix. */
  function FindMetadataItems(nsmap: NsMap, metadata: seq<Element>, key: string, ns: Option<string>): (r: seq<Element>)
    ensures ns !in nsmap ==> r == []
    ensures IsSubsequence(r, metadata)
    ensures ns in nsmap ==>
      forall e :: multiset(r)[e] == if e.tag == QualifiedTag(nsmap[ns], key) then multiset(metadata)[e] else 0
  {
    if ns !in nsmap then [] else Filter(metadata, TagIs(QualifiedTag(nsmap[ns], key)))
  }

  // ------------------------------------------------------------ extension entries

  /** The test `get_meta_item` applies: a default-namespace `meta` child whose `name` is `key`. */
  function MetaSelector(nsmap: NsMap, key: string): Selector
    requires None in nsmap
  {
    Both(TagIs(QualifiedTag(nsmap[None], "meta")), NameIs(key))
  }

  predicate IsMetaEntry(nsmap: NsMap, e: Element, key: string) {
    None in nsmap && Matches(MetaSelector(nsmap, key), e)
  }

  /** `el.attrib['name']` is defined for every `meta` child the lookup scans (else `KeyError`). */
  predicate NamesPresent(nsmap: NsMap, metadata: seq<Element>) {
    None in nsmap ==>
      forall i :: 0 <= i < |metadata| && metadata[i].tag == QualifiedTag(nsmap[None], "meta") ==>
        "name" in metadata[i].attrib
  }

  /** `get_meta_item`: all `meta` children named `key`, in document order. */
  function GetMetaItem(nsmap: NsMap, metadata: seq<Element>, key: string): (r: seq<Element>)
    requires NamesPresent(nsmap, metadata)
    ensures None !in nsmap ==> r == []
    ensures IsSubsequence(r, metadata)
    ensures forall e :: multiset(r)[e] == if IsMetaEntry(nsmap, e, key) then multiset(metadata)[e] else 0
  {
    var els := FindMetadataItems(nsmap, metadata, "meta", None);
    var r := Filter(els, NameIs(key));
    assert None in nsmap ==> r == Filter(metadata, MetaSelector(nsmap, key)) by {
      if None in nsmap {
        FilterBoth(metadata, TagIs(QualifiedTag(nsmap[None], "meta")), NameIs(key));
      }
    }
    r
  }

  /** Position of the first `meta` child named `key`. */
  function FirstMeta(nsmap: NsMap, metadata: seq<Element>, key: string): (r: Option<nat>)
    ensures r.Some? ==> r.value < |metadata| && IsMetaEntry(nsmap, metadata[r.value], key)
    ensures r.Some? ==> forall j :: 0 <= j < r.value ==> !IsMetaEntry(nsmap, metadata[j], key)
    ensures r.None? ==> forall j :: 0 <= j < |metadata| ==> !IsMetaEntry(nsmap, metadata[j], key)
  {
    if None !in nsmap then None else First(metadata, MetaSelector(nsmap, key))
  }

  lemma GetMetaItemHead(nsmap: NsMap, metadata: seq<Element>, key: string)
    requires NamesPresent(nsmap, metadata)
    ensures (GetMetaItem(nsmap, metadata, key) != []) == FirstMeta(nsmap, metadata, key).Some?
    ensures FirstMeta(nsmap, metadata, key).Some? ==>
      GetMetaItem(nsmap, metadata, key)[0] == metadata[FirstMeta(nsmap, metadata, key).value]
  {
    if None in nsmap {
      FilterBoth(metadata, TagIs(QualifiedTag(nsmap[None], "meta")), NameIs(key));
      FilterHead(metadata, MetaSelector(nsmap, key));
    }
  }

  /** `el.attrib['content']` is defined for the entry `get_metadata_ext` returns from. */
  predicate ContentAtFirst(nsmap: NsMap, metadata: seq<Element>, key: string) {
    match FirstMeta(nsmap, metadata, key)
    case Some(i) => "content" in metadata[i].attrib
    case None => true
  }

  /** `get_metadata_ext`: the `content` of the first `meta` child named `key`, or `None`. */
  function GetMetadataExt(nsmap: NsMap, metadata: seq<Element>, key: string): (r: Option<string>)
    requires NamesPresent(nsmap, metadata) && ContentAtFirst(nsmap, metadata, key)
    ensures r == match FirstMeta(nsmap, metadata, key)
      case Some(i) => Some(metadata[i].attrib["content"])
      case None => None
  {
    var els := GetMetaItem(nsmap, metadata, key);
    GetMetaItemHead(nsmap, metadata, key);
    if |els| > 0 then Some(els[0].attrib["content"]) else None
  }

  // ------------------------------------------------------------ standard fields

  /** `get_metadata_main`: the text of the first `dc:key` child, or `None`. */
  function GetMetadataMain(nsmap: NsMap, metadata: seq<Element>, key: string): (r: Option<string>)
    ensures Some("dc") !in nsmap ==> r == None
    ensures Some("dc") in nsmap ==>
      (r == match First(metadata, TagIs(QualifiedTag(nsmap[Some("dc")], key)))
            case Some(i) => metadata[i].text
            case None => None)
  {
    var els := FindMetadataItems(nsmap, metadata, key, Some("dc"));
    assert Some("dc") in nsmap ==>
      var first := First(metadata, TagIs(QualifiedTag(nsmap[Some("dc")], key)));
      (els != []) == first.Some? && (first.Some? ==> els[0] == metadata[first.value])
    by {
      if Some("dc") in nsmap {
        FilterHead(metadata, TagIs(QualifiedTag(nsmap[Some("dc")], key)));
      }
    }
    if |els| > 0 then els[0].text else None
  }

  /** `get_metadata_node`: the position of the first root child whose tag contains `metadata`. */
  function GetMetadataNode(root: Element): (r: Option<nat>)
    ensures r.Some? ==> r.value < |root.children| && Contains(root.children[r.value].tag, "metadata")
    ensures r.Some? ==> forall j :: 0 <= j < r.value ==> !Contains(root.children[j].tag, "metadata")
    ensures r.None? ==> forall j :: 0 <= j < |root.children| ==> !Contains(root.children[j].tag, "metadata")
  {
    First(root.children, TagContains("metadata"))
  }

  // ------------------------------------------------------------ series resolver

  datatype BookSequence = BookSequence(series: string, num: int)

  /** `int(content)` of the calibre index is defined, else `ValueError`. */
  predicate IndexDefined(indexContent: Option<string>) {
    indexContent.Some? ==> IsIntLiteral(indexContent.value)
  }

  /** The calibre index as a number, or `-1`. */
  function IndexValue(indexContent: Option<string>): int
    requires IndexDefined(indexContent)
  {
    if indexContent.Some? then ParseInt(indexContent.value) else -1
  }

  /** A legacy value with exactly one `;`: the form the resolver accepts. */
  predicate IsLegacyPair(v: Option<string>) {
    v.Some? && Count(v.value, ';') == 1
  }

  /** `int(''.join(filter(str.isdigit, part1)))` is defined: part 1 holds a digit. */
  predicate LegacyDefined(v: Option<string>) {
    match v
    case Some(s) => |Split(s, ';')| == 2 ==> Digits(Split(s, ';')[1]) != []
    case None => true
  }

  predicate ResolveDefined(indexContent: Option<string>, legacy: Option<string>) {
    IndexDefined(indexContent) && (IndexValue(indexContent) < 0 ==> LegacyDefined(legacy))
  }

  /**
   * The decision `get_book_sequence` takes on the three contents it reads:
   * the calibre pair wins whenever its index is at least 0; otherwise a
   * legacy value `<series>;<text>` with exactly one `;` gives the series
   * before the `;` and the number spelled by all digits after it; otherwise
   * the calibre series (or `''`) with the calibre index (or `-1`).
   */
  function Resolve(seriesContent: Option<string>, indexContent: Option<string>, legacy: Option<string>): (r: BookSequence)
    requires ResolveDefined(indexContent, legacy)
    ensures IndexValue(indexContent) >= 0 ==>
      r == BookSequence(seriesContent.GetOr(""), IndexValue(indexContent))
    ensures IndexValue(indexContent) < 0 && IsLegacyPair(legacy) ==>
      var v := legacy.value;
      var k := IndexOf(v, ';');
      && r == BookSequence(v[..k], ParseNat(Digits(v[k + 1..])))
      && Digits(v[k + 1..]) != []
      && ';' !in r.series
      && r.num >= 0
    ensures IndexValue(indexContent) < 0 && !IsLegacyPair(legacy) ==>
      r == BookSequence(seriesContent.GetOr(""), IndexValue(indexContent))
  {
    var series := if seriesContent.Some? then seriesContent.value else "";
    var num := if indexContent.Some? then ParseInt(indexContent.value) else -1;
    if num > -1 then
      BookSequence(series, num)
    else if legacy.Some? then
      var arr := Split(legacy.value, ';');
      SplitInTwo(legacy.value, ';');
      if |arr| == 2 then
        BookSequence(arr[0], ParseNat(Digits(arr[1])))
      else
        BookSequence(series, num)
    else
      BookSequence(series, num)
  }

  /** The legacy entry is read only when the calibre index is missing or negative. */
  predicate SequenceDefined(nsmap: NsMap, metadata: seq<Element>) {
    && NamesPresent(nsmap, metadata)
    && ContentAtFirst(nsmap, metadata, META_CALIBRE_SEQ)
    && ContentAtFirst(nsmap, metadata, META_CALIBRE_INX)
    && IndexDefined(GetMetadataExt(nsmap, metadata, META_CALIBRE_INX))
    && (IndexValue(GetMetadataExt(nsmap, metadata, META_CALIBRE_INX)) < 0 ==>
          && ContentAtFirst(nsmap, metadata, META_FB2_SEQ)
          && LegacyDefined(GetMetadataExt(nsmap, metadata, META_FB2_SEQ)))
  }

  /** The legacy content, as far as the resolver reads it. */
  function LegacyRead(nsmap: NsMap, metadata: seq<Element>): (r: Option<string>)
    requires SequenceDefined(nsmap, metadata)
    ensures IndexValue(GetMetadataExt(nsmap, metadata, META_CALIBRE_INX)) < 0 ==>
      r == GetMetadataExt(nsmap, metadata, META_FB2_SEQ)
  {
    if IndexValue(GetMetadataExt(nsmap, metadata, META_CALIBRE_INX)) > -1 then None
    else GetMetadataExt(nsmap, metadata, META_FB2_SEQ)
  }

  /** `get_book_sequence`: the resolver applied to the first entry of each key. */
  function GetBookSequence(nsmap: NsMap, metadata: seq<Element>): (r: BookSequence)
    requires SequenceDefined(nsmap, metadata)
    ensures var index := IndexValue(GetMetadataExt(nsmap, metadata, META_CALIBRE_INX));
      index >= 0 ==> r == BookSequence(GetMetadataExt(nsmap, metadata, META_CALIBRE_SEQ).GetOr(""), index)
    ensures var index := IndexValue(GetMetadataExt(nsmap, metadata, META_CALIBRE_INX));
      index < 0 && !IsLegacyPair(GetMetadataExt(nsmap, metadata, META_FB2_SEQ)) ==>
        r == BookSequence(GetMetadataExt(nsmap, metadata, META_CALIBRE_SEQ).GetOr(""), index)
    ensures (IndexValue(GetMetadataExt(nsmap, metadata, META_CALIBRE_INX)) < 0
             && IsLegacyPair(GetMetadataExt(nsmap, metadata, META_FB2_SEQ))) ==>
        var v := GetMetadataExt(nsmap, metadata, META_FB2_SEQ).value;
        var k := IndexOf(v, ';');
        r == BookSequence(v[..k], ParseNat(Digits(v[k + 1..]))) && r.num >= 0
  {
    Resolve(GetMetadataExt(nsmap, metadata, META_CALIBRE_SEQ),
            GetMetadataExt(nsmap, metadata, META_CALIBRE_INX),
            LegacyRead(nsmap, metadata))
  }

  /** `a` and `b` agree on whether a first `meta` entry named `key` exists, and on its attributes. */
  predicate SameEntry(nsmap: NsMap, a: seq<Element>, b: seq<Element>, key: string) {
    match FirstMeta(nsmap, a, key)
    case Some(i) => FirstMeta(nsmap, b, key).Some? && a[i].attrib == b[FirstMeta(nsmap, b, key).value].attrib
    case None => FirstMeta(nsmap, b, key).None?
  }

  lemma SameEntrySameExt(nsmap: NsMap, a: seq<Element>, b: seq<Element>, key: string)
    requires SameEntry(nsmap, a, b, key) && NamesPresent(nsmap, a) && NamesPresent(nsmap, b)
    ensures ContentAtFirst(nsmap, a, key) == ContentAtFirst(nsmap, b, key)
    ensures ContentAtFirst(nsmap, a, key) ==> GetMetadataExt(nsmap, a, key) == GetMetadataExt(nsmap, b, key)
  {
  }

  /** The resolver reads nothing but the first entry for each of its three keys. */
  lemma SameEntriesSameSequence(nsmap: NsMap, a: seq<Element>, b: seq<Element>)
    requires NamesPresent(nsmap, a) == NamesPresent(nsmap, b)
    requires SameEntry(nsmap, a, b, META_CALIBRE_SEQ)
    requires SameEntry(nsmap, a, b, META_CALIBRE_INX)
    requires SameEntry(nsmap, a, b, META_FB2_SEQ)
    requires SequenceDefined(nsmap, a)
    ensures SequenceDefined(nsmap, b)
    ensures GetBookSequence(nsmap, a) == GetBookSequence(nsmap, b)
  {
    SameEntrySameExt(nsmap, a, b, META_CALIBRE_SEQ);
    SameEntrySameExt(nsmap, a, b, META_CALIBRE_INX);
    SameEntrySameExt(nsmap, a, b, META_FB2_SEQ);
  }

  lemma {:induction false} ShapeSameEntry(nsmap: NsMap, a: seq<Element>, b: seq<Element>, key: string)
    requires SameShape(a, b)
    ensures SameEntry(nsmap, a, b, key)
  {
    if None in nsmap {
      ScansIgnoreText(a, b, MetaSelector(nsmap, key));
    }
  }

  lemma ShapeNamesPresent(nsmap: NsMap, a: seq<Element>, b: seq<Element>)
    requires SameShape(a, b)
    ensures NamesPresent(nsmap, a) == NamesPresent(nsmap, b)
  {
  }

  /** Changing only texts of children leaves the resolved series unchanged. */
  lemma SequenceIgnoresText(nsmap: NsMap, a: seq<Element>, b: seq<Element>)
    requires SameShape(a, b) && SequenceDefined(nsmap, a)
    ensures SequenceDefined(nsmap, b)
    ensures GetBookSequence(nsmap, a) == GetBookSequence(nsmap, b)
  {
    ShapeSameEntry(nsmap, a, b, META_CALIBRE_SEQ);
    ShapeSameEntry(nsmap, a, b, META_CALIBRE_INX);
    ShapeSameEntry(nsmap, a, b, META_FB2_SEQ);
    ShapeNamesPresent(nsmap, a, b);
    SameEntriesSameSequence(nsmap, a, b);
  }

  /** With none of the three keys present the resolver gives the sentinel `('', -1)`. */
  lemma NoEntriesNoSeries(nsmap: NsMap, metadata: seq<Element>)
    requires NamesPresent(nsmap, metadata)
    requires FirstMeta(nsmap, metadata, META_CALIBRE_SEQ).None?
    requires FirstMeta(nsmap, metadata, META_CALIBRE_INX).None?
    requires FirstMeta(nsmap, metadata, META_FB2_SEQ).None?
    ensures SequenceDefined(nsmap, metadata)
    ensures GetBookSequence(nsmap, metadata) == BookSequence("", -1)
  {
  }

  // ------------------------------------------------------------ examples

  const OPF_NS: string := "http://www.idpf.org/2007/opf"

  function OpfMeta(name: string, content: string): Element {
    Element(QualifiedTag(OPF_NS, "meta"), map["name" := name, "content" := content], None, [])
  }

  /** With a default namespace, a single OPF `meta` entry is found for its own name only. */
  lemma SingleEntryLookup(name: string, content: string, key: string)
    ensures var md := [OpfMeta(name, content)];
      && NamesPresent(map[None := OPF_NS], md)
      && FirstMeta(map[None := OPF_NS], md, key) == (if name == key then Some(0) else None)
      && ContentAtFirst(map[None := OPF_NS], md, key)
      && GetMetadataExt(map[None := OPF_NS], md, key) == if name == key then Some(content) else None
  {
    var nsmap: NsMap := map[None := OPF_NS];
    var e := OpfMeta(name, content);
    assert [e][1..] == [];
    assert Matches(MetaSelector(nsmap, key), e) == (name == key);
  }

  /**
   * A legacy value `<series>;<rest>` with one `;` resolves to the series and
   * the number spelled by the digits of `rest`, whenever the calibre index
   * does not win.
   */
  lemma LegacyPairResolves(seriesContent: Option<string>, indexContent: Option<string>, series: string, rest: string)
    requires IndexDefined(indexContent) && IndexValue(indexContent) < 0
    requires ';' !in series && ';' !in rest && Digits(rest) != []
    ensures ResolveDefined(indexContent, Some(series + [';'] + rest))
    ensures Resolve(seriesContent, indexContent, Some(series + [';'] + rest)) == BookSequence(series, ParseNat(Digits(rest)))
  {
    var v := series + [';'] + rest;
    assert Join([rest], ';') == rest;
    assert Join([series, rest], ';') == v by {
      assert [series, rest][1..] == [rest];
    }
    SplitJoin([series, rest], ';');
    SplitInTwo(v, ';');
  }

  /** Python's `filter(str.isdigit, "Book 2 of 3")` keeps `"23"`. */
  lemma ExampleLegacyNumber(rest: string)
    requires rest == "Book 2 of 3"
    ensures Digits(rest) == "23" && ParseNat(Digits(rest)) == 23
  {
    assert rest == "Book " + "2" + " of " + "3";
    DigitsAppend("Book " + "2" + " of ", "3");
    DigitsAppend("Book " + "2", " of ");
    DigitsAppend("Book ", "2");
  }

  /** All digits after the `;` are concatenated: `"Mistborn;Book 2 of 3"` gives 23. */
  lemma ExampleLegacyDigits(v: string)
    requires v == "Mistborn;Book 2 of 3"
    ensures ResolveDefined(None, Some(v))
    ensures Resolve(None, None, Some(v)) == BookSequence("Mistborn", 23)
  {
    var series, rest := v[..8], v[9..];
    assert series == "Mistborn" && rest == "Book 2 of 3";
    assert v == series + [';'] + rest;
    ExampleLegacyNumber(rest);
    LegacyPairResolves(None, None, series, rest);
  }

  /** The same value read from a package document that holds only the legacy entry. */
  lemma ExampleLegacyDocument()
    ensures var md := [OpfMeta(META_FB2_SEQ, "Mistborn;Book 2 of 3")];
      && SequenceDefined(map[None := OPF_NS], md)
      && GetBookSequence(map[None := OPF_NS], md) == BookSequence("Mistborn", 23)
  {
    SingleEntryLookup(META_FB2_SEQ, "Mistborn;Book 2 of 3", META_CALIBRE_SEQ);
    SingleEntryLookup(META_FB2_SEQ, "Mistborn;Book 2 of 3", META_CALIBRE_INX);
    SingleEntryLookup(META_FB2_SEQ, "Mistborn;Book 2 of 3", META_FB2_SEQ);
    ExampleLegacyDigits("Mistborn;Book 2 of 3");
  }

  /** A calibre index of at least 0 wins over a legacy entry. */
  lemma ExampleVendorWins()
    ensures ResolveDefined(Some("3"), Some("Foo;Book Four"))
    ensures Resolve(Some("Saga"), Some("3"), Some("Foo;Book Four")) == BookSequence("Saga", 3)
  {
    assert ParseInt("3") == 3;
  }

  /** A calibre series without an index and no legacy entry keeps the series with index -1. */
  lemma ExampleSeriesWithoutIndex()
    ensures ResolveDefined(None, None)
    ensures Resolve(Some("Saga"), None, None) == BookSequence("Saga", -1)
  {
  }

  /** A legacy value with two `;` is not a pair: the calibre values stay. */
  lemma ExampleTwoSeparators()
    ensures ResolveDefined(None, Some("a;b;1"))
    ensures Resolve(None, None, Some("a;b;1")) == BookSequence("", -1)
  {
    var v := "a;b;1";
    assert v == [v[0]] + v[1..];
    assert v[1..] == [v[1]] + v[2..];
    assert v[2..] == [v[2]] + v[3..];
    assert Count(v[2..], ';') >= 1 by {
      assert v[3..] == [v[3]] + v[4..];
    }
    assert Count(v, ';') >= 2;
  }
}
