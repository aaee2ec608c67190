/**
 * The `Book` class of `epub_metadata/book.py`: a package document loaded
 * from an EPUB archive, the `<metadata>` element chosen as the first root
 * child whose tag contains `metadata`, the series pair resolved once at
 * load time, and the field bindings of the overwriting loop.
 *
 * Elements are values here, so the class names the metadata element by its
 * position among the root's children and each bound field by its position
 * among the metadata children; a setter replaces the tree by one in which
 * exactly that element's text differs.
 */
module BookFacade {
  import opened Common
  import opened Strings
  import opened Seqs
  import opened Xml
  import opened Epub
  import opened Archive
  import opened Fields

  class Book {
    var tree: Tree
    const metaIndex: nat
    const fields: Bindings
    const series: string
    const seriesNum: int

    /** The children of the chosen `<metadata>` element. */
    function Metadata(): seq<Element>
      reads this
      requires metaIndex < |tree.root.children|
    {
      tree.root.children[metaIndex].children
    }

    /**
     * The metadata element is the first root child whose tag contains
     * `metadata`; the fields are bound as the loop binds them; the cached
     * series pair is what the resolver gives for the current children.
     */
    ghost predicate Valid()
      reads this
    {
      && GetMetadataNode(tree.root) == Some(metaIndex)
      && fields == BoundFields(Metadata())
      && SequenceDefined(tree.nsmap, Metadata())
      && GetBookSequence(tree.nsmap, Metadata()) == BookSequence(series, seriesNum)
    }

    /**
     * `Book(fname, log)`: read the package document, select the metadata
     * element, resolve the series and bind the fields.
     */
    constructor(z: Zip, parse: Bytes -> Tree)
      requires GetBookMetadata(z, parse).Some?
      requires GetMetadataNode(GetBookMetadata(z, parse).value.root).Some?
      requires var t := GetBookMetadata(z, parse).value;
        SequenceDefined(t.nsmap, t.root.children[GetMetadataNode(t.root).value].children)
      ensures Valid()
      ensures tree == GetBookMetadata(z, parse).value
    {
      var t := GetBookMetadata(z, parse).value;
      var m := GetMetadataNode(t.root).value;
      var md := t.root.children[m].children;
      var s := GetBookSequence(t.nsmap, md);
      var b := BindFields(md);
      tree := t;
      metaIndex := m;
      series := s.series;
      seriesNum := s.num;
      fields := b;
      new;
      assert Metadata() == md;
    }

    /** The `title` property: the text of the last child whose tag contains `title`. */
    function Title(): (t: Option<string>)
      reads this
      requires Valid() && fields.title.Some?
      ensures var md, i := Metadata(), fields.title.value;
        && i < |md| && Contains(md[i].tag, "title")
        && (forall j :: i < j < |md| ==> !Contains(md[j].tag, "title"))
        && t == md[i].text
    {
      Metadata()[fields.title.value].text
    }

    /** The `creator` property: the text of the last child whose tag contains `creator`. */
    function Creator(): (t: Option<string>)
      reads this
      requires Valid() && fields.creator.Some?
      ensures var md, i := Metadata(), fields.creator.value;
        && i < |md| && Contains(md[i].tag, "creator")
        && (forall j :: i < j < |md| ==> !Contains(md[j].tag, "creator"))
        && t == md[i].text
    {
      Metadata()[fields.creator.value].text
    }

    /** Changing the text of one metadata child keeps every invariant. */
    lemma TextChangeKeepsValid(j: nat, text: Option<string>)
      requires Valid() && j < |Metadata()|
      ensures var t' := SetChildText(tree, metaIndex, j, text);
        && GetMetadataNode(t'.root) == Some(metaIndex)
        && fields == BoundFields(t'.root.children[metaIndex].children)
        && SequenceDefined(t'.nsmap, t'.root.children[metaIndex].children)
        && GetBookSequence(t'.nsmap, t'.root.children[metaIndex].children) == BookSequence(series, seriesNum)
    {
      var t' := SetChildText(tree, metaIndex, j, text);
      ScansIgnoreText(t'.root.children, tree.root.children, TagContains("metadata"));
      BindingsIgnoreText(Metadata(), t'.root.children[metaIndex].children);
      SequenceIgnoresText(tree.nsmap, Metadata(), t'.root.children[metaIndex].children);
    }

    /** The `title` setter: only the bound element's text changes. */
    method SetTitle(title: Option<string>)
      requires Valid() && fields.title.Some?
      modifies this
      ensures Valid()
      ensures tree == SetChildText(old(tree), metaIndex, fields.title.value, title)
      ensures Title() == title
    {
      TextChangeKeepsValid(fields.title.value, title);
      tree := SetChildText(tree, metaIndex, fields.title.value, title);
    }

    /** The `creator` setter: only the bound element's text changes. */
    method SetCreator(creator: Option<string>)
      requires Valid() && fields.creator.Some?
      modifies this
      ensures Valid()
      ensures tree == SetChildText(old(tree), metaIndex, fields.creator.value, creator)
      ensures Creator() == creator
    {
      TextChangeKeepsValid(fields.creator.value, creator);
      tree := SetChildText(tree, metaIndex, fields.creator.value, creator);
    }

    /** `series` and `series_num`: the pair resolved from the current metadata children. */
    function Series(): (r: BookSequence)
      reads this
      requires Valid()
      ensures SequenceDefined(tree.nsmap, Metadata()) && r == GetBookSequence(tree.nsmap, Metadata())
    {
      BookSequence(series, seriesNum)
    }

    /** `get_metadata(key, ns)`: the metadata children with tag `{nsmap[ns]}key`, in document order. */
    function GetMetadata(key: string, ns: Option<string>): (r: seq<Element>)
      reads this
      requires Valid()
      ensures ns !in tree.nsmap ==> r == []
      ensures IsSubsequence(r, Metadata())
      ensures ns in tree.nsmap ==>
        forall e :: multiset(r)[e] == if e.tag == QualifiedTag(tree.nsmap[ns], key) then multiset(Metadata())[e] else 0
    {
      FindMetadataItems(tree.nsmap, Metadata(), key, ns)
    }

    /** `get_dc(key)`: the text of the first `dc:key` child, or `None`. */
    function GetDc(key: string): (r: Option<string>)
      reads this
      requires Valid()
      ensures Some("dc") !in tree.nsmap ==> r == None
      ensures Some("dc") in tree.nsmap ==>
        (r == match First(Metadata(), TagIs(QualifiedTag(tree.nsmap[Some("dc")], key)))
              case Some(i) => Metadata()[i].text
              case None => None)
    {
      GetMetadataMain(tree.nsmap, Metadata(), key)
    }

    /** `get_meta(key)`: the `content` of the first `meta` child named `key`, or `None`. */
    function GetMeta(key: string): (r: Option<string>)
      reads this
      requires Valid() && ContentAtFirst(tree.nsmap, Metadata(), key)
      ensures r == match FirstMeta(tree.nsmap, Metadata(), key)
        case Some(i) => Some(Metadata()[i].attrib["content"])
        case None => None
    {
      GetMetadataExt(tree.nsmap, Metadata(), key)
    }

    /** `update()`: the archive written back, with the serialised tree in every package entry. */
    method Update(z: Zip, serialize: Tree -> Bytes) returns (out: Zip)
      requires Valid()
      ensures out == Rewrite(z, serialize(tree))
    {
      out := RewriteZip(z, serialize(tree));
    }
  }

  /** A serialisation the parser reads back makes `update` persist the tree: reloading gives it again. */
  lemma UpdatePersists(z: Zip, t: Tree, parse: Bytes -> Tree, serialize: Tree -> Bytes)
    requires FirstPackageEntry(z.entries).Some? && parse(serialize(t)) == t
    ensures GetBookMetadata(Rewrite(z, serialize(t)), parse) == Some(t)
  {
    RewriteReadBack(z, serialize(t), parse);
  }
}
