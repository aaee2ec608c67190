/**
 * The older `Book` class of `epub_editor.py` and its loader
 * `get_book_metadata`. It differs from the one in `epub_metadata/book.py`
 * in three ways that the model keeps: the `<metadata>` element is the LAST
 * root child whose tag contains `metadata` (the selection loop has no
 * `break`), `get_meta` scans lazily and stops at the first `meta` child
 * named `key`, and no series pair is resolved.
 */
module Editor {
  import opened Common
  import opened Strings
  import opened Seqs
  import opened Xml
  import opened Epub
  import opened Archive
  import opened Fields

  // ------------------------------------------------------------ lazy lookup

  /** Every element the lazy scan inspects has a `name`, and the one it stops at has a `content`. */
  predicate LazyLookupDefined(els: seq<Element>, key: string)
    decreases |els|
  {
    els != [] ==>
      && "name" in els[0].attrib
      && if els[0].attrib["name"] == key then "content" in els[0].attrib else LazyLookupDefined(els[1..], key)
  }

  /** `for el in els: if key == el.attrib['name']: return el.attrib['content']`, falling through to `None`. */
  function LazyLookup(els: seq<Element>, key: string): (r: Option<string>)
    requires LazyLookupDefined(els, key)
    ensures r.Some? <==> First(els, NameIs(key)).Some?
    ensures r.Some? ==>
      && "content" in els[First(els, NameIs(key)).value].attrib
      && r.value == els[First(els, NameIs(key)).value].attrib["content"]
    decreases |els|
  {
    if els == [] then None
    else if els[0].attrib["name"] == key then Some(els[0].attrib["content"])
    else LazyLookup(els[1..], key)
  }

  /** The lazy scan is defined when every element is named and the first match has a `content`. */
  lemma {:induction false} LazyDefinedFrom(els: seq<Element>, key: string)
    requires forall e :: e in els ==> "name" in e.attrib
    requires First(els, NameIs(key)).Some? ==> "content" in els[First(els, NameIs(key)).value].attrib
    ensures LazyLookupDefined(els, key)
    decreases |els|
  {
    if els != [] && els[0].attrib["name"] != key {
      assert forall e :: e in els[1..] ==> e in els;
      LazyDefinedFrom(els[1..], key);
    }
  }

  /**
   * Where `get_metadata_ext` is defined, the editor's lazy `get_meta` is
   * defined too and gives the same value.
   */
  lemma MetaLookupsAgree(nsmap: NsMap, md: seq<Element>, key: string)
    requires NamesPresent(nsmap, md) && ContentAtFirst(nsmap, md, key)
    ensures var els := FindMetadataItems(nsmap, md, "meta", None);
      LazyLookupDefined(els, key) && LazyLookup(els, key) == GetMetadataExt(nsmap, md, key)
  {
    var els := FindMetadataItems(nsmap, md, "meta", None);
    if None in nsmap {
      forall e | e in els ensures "name" in e.attrib {
        assert multiset(els)[e] > 0;
        assert e in md;
      }
      FilterHead(els, NameIs(key));
      GetMetaItemHead(nsmap, md, key);
      LazyDefinedFrom(els, key);
    }
  }

  /** The lazy scan needs less: a nameless `meta` child after the match does not stop it. */
  lemma LazyToleratesLaterNameless(key: string, content: string, uri: string)
    ensures var nsmap: NsMap := map[None := uri];
      var found := Element(QualifiedTag(uri, "meta"), map["name" := key, "content" := content], None, []);
      var nameless := Element(QualifiedTag(uri, "meta"), map[], None, []);
      var md := [found, nameless];
      && !NamesPresent(nsmap, md)
      && LazyLookupDefined(FindMetadataItems(nsmap, md, "meta", None), key)
      && LazyLookup(FindMetadataItems(nsmap, md, "meta", None), key) == Some(content)
  {
    var nsmap: NsMap := map[None := uri];
    var found := Element(QualifiedTag(uri, "meta"), map["name" := key, "content" := content], None, []);
    var nameless := Element(QualifiedTag(uri, "meta"), map[], None, []);
    var md := [found, nameless];
    assert md[1..] == [nameless] && md[1..][1..] == [];
    assert FindMetadataItems(nsmap, md, "meta", None) == md;
    assert "name" !in md[1].attrib;
  }

  // ------------------------------------------------------------ container choice

  /** Two root children that both contain `metadata`: the two classes pick different ones. */
  lemma ContainersDiffer(root: Element, i: nat, j: nat)
    requires i < j < |root.children|
    requires Contains(root.children[i].tag, "metadata") && Contains(root.children[j].tag, "metadata")
    ensures GetMetadataNode(root) != Last(root.children, TagContains("metadata"))
  {
    FirstBeforeLast(root.children, TagContains("metadata"), i, j);
  }

  /** With a single such child, both classes pick it. */
  lemma SingleContainerAgrees(root: Element)
    requires forall i, j :: 0 <= i < j < |root.children| && Contains(root.children[i].tag, "metadata") ==>
      !Contains(root.children[j].tag, "metadata")
    ensures GetMetadataNode(root) == Last(root.children, TagContains("metadata"))
  {
  }

  /** The selection loop `for el in self._tree: if 'metadata' in el.tag: self._metadata = el`. */
  method SelectMetadata(children: seq<Element>) returns (m: Option<nat>)
    ensures m == Last(children, TagContains("metadata"))
  {
    m := None;
    for i := 0 to |children|
      invariant m == Last(children[..i], TagContains("metadata"))
    {
      LastStep(children, i, TagContains("metadata"));
      if Contains(children[i].tag, "metadata") {
        m := Some(i);
      }
    }
    assert children[..|children|] == children;
  }

  // ------------------------------------------------------------ the class

  class Book {
    var tree: Tree
    const metaIndex: nat
    const fields: Bindings

    /** The children of the chosen `<metadata>` element. */
    function Metadata(): seq<Element>
      reads this
      requires metaIndex < |tree.root.children|
    {
      tree.root.children[metaIndex].children
    }

    /** The metadata element is the last root child whose tag contains `metadata`; fields as the loop binds them. */
    ghost predicate Valid()
      reads this
    {
      && Last(tree.root.children, TagContains("metadata")) == Some(metaIndex)
      && fields == BoundFields(Metadata())
    }

    /**
     * `Book(fname, l)`: load the package document, keep the last root child
     * whose tag contains `metadata`, bind the fields.
     */
    constructor(z: Zip, parse: Bytes -> Tree)
      requires GetBookMetadata(z, parse).Some?
      requires Last(GetBookMetadata(z, parse).value.root.children, TagContains("metadata")).Some?
      ensures Valid()
      ensures tree == GetBookMetadata(z, parse).value
    {
      var t := GetBookMetadata(z, parse).value;
      var children := t.root.children;
      var m := SelectMetadata(children);
      var b := BindFields(children[m.value].children);
      tree := t;
      metaIndex := m.value;
      fields := b;
      new;
      assert Metadata() == children[m.value].children;
    }

    /** The `title` property: the text of the last child whose tag contains `title`. */
    function Title(): (t: Option<string>)
      reads this
      requires Valid() && fields.title.Some?
      ensures var md, i := Metadata(), fields.title.value;
        && i < |md| && Contains(md[i].tag, "title")
        && (forall j :: i < j < |md| ==> !Contains(md[j].tag, "title"))
        && t == md[i].text
    {
      Metadata()[fields.title.value].text
    }

    /** The `creator` property: the text of the last child whose tag contains `creator`. */
    function Creator(): (t: Option<string>)
      reads this
      requires Valid() && fields.creator.Some?
      ensures var md, i := Metadata(), fields.creator.value;
        && i < |md| && Contains(md[i].tag, "creator")
        && (forall j :: i < j < |md| ==> !Contains(md[j].tag, "creator"))
        && t == md[i].text
    {
      Metadata()[fields.creator.value].text
    }

    /** Changing the text of one metadata child keeps the container and the bindings. */
    lemma TextChangeKeepsValid(j: nat, text: Option<string>)
      requires Valid() && j < |Metadata()|
      ensures var t' := SetChildText(tree, metaIndex, j, text);
        && Last(t'.root.children, TagContains("metadata")) == Some(metaIndex)
        && fields == BoundFields(t'.root.children[metaIndex].children)
    {
      var t' := SetChildText(tree, metaIndex, j, text);
      ScansIgnoreText(t'.root.children, tree.root.children, TagContains("metadata"));
      BindingsIgnoreText(Metadata(), t'.root.children[metaIndex].children);
    }

    /** The `title` setter: only the bound element's text changes. */
    method SetTitle(title: Option<string>)
      requires Valid() && fields.title.Some?
      modifies this
      ensures Valid()
      ensures tree == SetChildText(old(tree), metaIndex, fields.title.value, title)
      ensures Title() == title
    {
      TextChangeKeepsValid(fields.title.value, title);
      tree := SetChildText(tree, metaIndex, fields.title.value, title);
    }

    /** The `creator` setter: only the bound element's text changes. */
    method SetCreator(creator: Option<string>)
      requires Valid() && fields.creator.Some?
      modifies this
      ensures Valid()
      ensures tree == SetChildText(old(tree), metaIndex, fields.creator.value, creator)
      ensures Creator() == creator
    {
      TextChangeKeepsValid(fields.creator.value, creator);
      tree := SetChildText(tree, metaIndex, fields.creator.value, creator);
    }

    /** `get_metadata(key, ns)`: the metadata children with tag `{nsmap[ns]}key`, in document order. */
    function GetMetadata(key: string, ns: Option<string>): (r: seq<Element>)
      reads this
      requires Valid()
      ensures ns !in tree.nsmap ==> r == []
      ensures IsSubsequence(r, Metadata())
      ensures ns in tree.nsmap ==>
        forall e :: multiset(r)[e] == if e.tag == QualifiedTag(tree.nsmap[ns], key) then multiset(Metadata())[e] else 0
    {
      FindMetadataItems(tree.nsmap, Metadata(), key, ns)
    }

    /** `get_dc(key)`: the text of the first `dc:key` child, or `None`. */
    function GetDc(key: string): (r: Option<string>)
      reads this
      requires Valid()
      ensures Some("dc") !in tree.nsmap ==> r == None
      ensures Some("dc") in tree.nsmap ==>
        (r == match First(Metadata(), TagIs(QualifiedTag(tree.nsmap[Some("dc")], key)))
              case Some(i) => Metadata()[i].text
              case None => None)
    {
      GetMetadataMain(tree.nsmap, Metadata(), key)
    }

    /** `get_meta(key)`: the scan over the `meta` children, returning at the first one named `key`. */
    method GetMeta(key: string) returns (r: Option<string>)
      requires Valid() && LazyLookupDefined(FindMetadataItems(tree.nsmap, Metadata(), "meta", None), key)
      ensures r == LazyLookup(FindMetadataItems(tree.nsmap, Metadata(), "meta", None), key)
    {
      var els := GetMetadata("meta", None);
      var i := 0;
      while i < |els|
        invariant 0 <= i <= |els|
        invariant LazyLookupDefined(els[i..], key)
        invariant LazyLookup(els[i..], key) == LazyLookup(els, key)
      {
        assert els[i..][1..] == els[i + 1..];
        if key == els[i].attrib["name"] {
          return Some(els[i].attrib["content"]);
        }
        i := i + 1;
      }
      return None;
    }

    /** `update()`: the archive written back, with the serialised tree in every package entry. */
    method Update(z: Zip, serialize: Tree -> Bytes) returns (out: Zip)
      requires Valid()
      ensures out == Rewrite(z, serialize(tree))
    {
      out := RewriteZip(z, serialize(tree));
    }
  }
}
