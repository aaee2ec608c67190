/**
 * The EPUB container as the editor sees it through `zipfile`: an archive
 * comment and a list of entries in directory order, each with a name, the
 * `ZipInfo` fields that `writestr` copies, and the uncompressed data.
 *
 * Two operations are modelled: finding the package document (the first
 * entry whose name contains `content.opf`) and the entry-by-entry copy that
 * `update` performs, which replaces the data of every package entry by the
 * serialised tree. XML parsing and serialisation are parameters.
 */
module Archive {
  import opened Common
  import opened Strings
  import opened Xml

  /** The `ZipInfo` fields carried over unchanged by `zout.writestr(item, ...)`. */
  datatype EntryInfo = EntryInfo(
    compressType: nat,
    dateTime: seq<int>,
    comment: Bytes,
    extra: Bytes,
    externalAttr: nat)

  datatype Entry = Entry(name: string, info: EntryInfo, data: Bytes)

  datatype Zip = Zip(comment: Bytes, entries: seq<Entry>)

  const PACKAGE_NAME: string := "content.opf"

  /** The test `'content.opf' in item.filename`. */
  predicate IsPackageEntry(e: Entry) {
    Contains(e.name, PACKAGE_NAME)
  }

  /** Position of the last entry called `name`: the one `zipfile` reads under that name. */
  function LastNamed(es: seq<Entry>, name: string): (r: Option<nat>)
    ensures r.Some? ==> r.value < |es| && es[r.value].name == name
    ensures r.Some? ==> forall j :: r.value < j < |es| ==> es[j].name != name
    ensures r.None? ==> forall j :: 0 <= j < |es| ==> es[j].name != name
    decreases |es|
  {
    if es == [] then None
    else if es[|es| - 1].name == name then Some(|es| - 1)
    else LastNamed(es[..|es| - 1], name)
  }

  /** Every entry's own name is found. */
  lemma LastNamedOwn(es: seq<Entry>, i: nat)
    requires i < |es|
    ensures LastNamed(es, es[i].name).Some? && i <= LastNamed(es, es[i].name).value
  {
  }

  predicate UniqueNames(es: seq<Entry>) {
    forall i, j :: 0 <= i < j < |es| ==> es[i].name != es[j].name
  }

  /** `zin.read(name)`; the name is one the archive lists (else `KeyError`). */
  function ReadEntry(z: Zip, name: string): (data: Bytes)
    requires LastNamed(z.entries, name).Some?
    ensures forall i ::
      (&& 0 <= i < |z.entries| && z.entries[i].name == name
       && (forall j :: i < j < |z.entries| ==> z.entries[j].name != name))
      ==> data == z.entries[i].data
  {
    z.entries[LastNamed(z.entries, name).value].data
  }

  /** With unique names, reading an entry's name gives that entry's data. */
  lemma ReadOwnEntry(z: Zip, i: nat)
    requires i < |z.entries| && UniqueNames(z.entries)
    ensures LastNamed(z.entries, z.entries[i].name) == Some(i)
    ensures ReadEntry(z, z.entries[i].name) == z.entries[i].data
  {
    LastNamedOwn(z.entries, i);
  }

  /** Position of the first package entry in directory order. */
  function FirstPackageEntry(es: seq<Entry>): (r: Option<nat>)
    ensures r.Some? ==> r.value < |es| && IsPackageEntry(es[r.value])
    ensures r.Some? ==> forall j :: 0 <= j < r.value ==> !IsPackageEntry(es[j])
    ensures r.None? ==> forall j :: 0 <= j < |es| ==> !IsPackageEntry(es[j])
  {
    if es == [] then None
    else if IsPackageEntry(es[0]) then Some(0)
    else match FirstPackageEntry(es[1..])
      case Some(i) => Some(i + 1)
      case None => None
  }

  /**
   * `get_book_metadata`: parse the data read under the name of the first
   * package entry, or `None` when no entry name contains `content.opf`.
   */
  function GetBookMetadata(z: Zip, parse: Bytes -> Tree): (r: Option<Tree>)
    ensures r.None? <==> forall j :: 0 <= j < |z.entries| ==> !IsPackageEntry(z.entries[j])
    ensures r.Some? ==> exists i ::
      (&& 0 <= i < |z.entries| && IsPackageEntry(z.entries[i])
       && (forall j :: 0 <= j < i ==> !IsPackageEntry(z.entries[j]))
       && r.value == parse(ReadEntry(z, z.entries[i].name)))
  {
    match FirstPackageEntry(z.entries)
    case None => None
    case Some(i) =>
      LastNamedOwn(z.entries, i);
      Some(parse(ReadEntry(z, z.entries[i].name)))
  }

  /** With unique names, the tree is parsed from the first package entry's own data. */
  lemma GetBookMetadataFirst(z: Zip, parse: Bytes -> Tree)
    requires UniqueNames(z.entries) && FirstPackageEntry(z.entries).Some?
    ensures GetBookMetadata(z, parse) == Some(parse(z.entries[FirstPackageEntry(z.entries).value].data))
  {
    ReadOwnEntry(z, FirstPackageEntry(z.entries).value);
  }

  // ------------------------------------------------------------ update

  /** What `update` writes for one listed entry: its name and info, with the new or the read data. */
  function RewriteEntry(z: Zip, item: Entry, doc: Bytes): (e: Entry)
    requires LastNamed(z.entries, item.name).Some?
  {
    Entry(item.name, item.info, if IsPackageEntry(item) then doc else ReadEntry(z, item.name))
  }

  /** The archive `update` writes. */
  function Rewrite(z: Zip, doc: Bytes): (r: Zip)
    ensures r.comment == z.comment && |r.entries| == |z.entries|
    ensures forall i :: 0 <= i < |z.entries| ==>
      && r.entries[i].name == z.entries[i].name
      && r.entries[i].info == z.entries[i].info
      && (IsPackageEntry(z.entries[i]) ==> r.entries[i].data == doc)
  {
    forall i | 0 <= i < |z.entries| ensures LastNamed(z.entries, z.entries[i].name).Some? {
      LastNamedOwn(z.entries, i);
    }
    Zip(z.comment, seq(|z.entries|, i requires 0 <= i < |z.entries| => RewriteEntry(z, z.entries[i], doc)))
  }

  /** The copy loop of `update`: `for item in zin.infolist(): zout.writestr(item, content)`. */
  method RewriteZip(z: Zip, doc: Bytes) returns (out: Zip)
    ensures out == Rewrite(z, doc)
  {
    var written: seq<Entry> := [];
    var i := 0;
    while i < |z.entries|
      invariant 0 <= i <= |z.entries|
      invariant |written| == i
      invariant forall k :: 0 <= k < i ==> LastNamed(z.entries, z.entries[k].name).Some?
      invariant forall k :: 0 <= k < i ==> written[k] == RewriteEntry(z, z.entries[k], doc)
    {
      var item := z.entries[i];
      LastNamedOwn(z.entries, i);
      var content := ReadEntry(z, item.name);
      if Contains(item.name, PACKAGE_NAME) {
        content := doc;
      }
      written := written + [Entry(item.name, item.info, content)];
      i := i + 1;
    }
    out := Zip(z.comment, written);
  }

  /** With unique names, every entry that is not a package document keeps its data. */
  lemma RewriteKeepsOthers(z: Zip, doc: Bytes, i: nat)
    requires i < |z.entries| && UniqueNames(z.entries) && !IsPackageEntry(z.entries[i])
    ensures Rewrite(z, doc).entries[i] == z.entries[i]
  {
    ReadOwnEntry(z, i);
  }

  /** Reading the package document back from the new archive gives the serialised tree. */
  lemma RewriteReadBack(z: Zip, doc: Bytes, parse: Bytes -> Tree)
    requires FirstPackageEntry(z.entries).Some?
    ensures GetBookMetadata(Rewrite(z, doc), parse) == Some(parse(doc))
  {
    var r := Rewrite(z, doc);
    var i := FirstPackageEntry(z.entries).value;
    SameNamesSamePackage(z.entries, r.entries);
    LastNamedOwn(r.entries, i);
    var k := LastNamed(r.entries, r.entries[i].name).value;
    assert r.entries[k].name == z.entries[i].name;
  }

  /** Rewriting with the same document a second time changes nothing more. */
  lemma RewriteIdempotent(z: Zip, doc: Bytes)
    ensures Rewrite(Rewrite(z, doc), doc) == Rewrite(z, doc)
  {
    var r := Rewrite(z, doc);
    var rr := Rewrite(r, doc);
    forall i | 0 <= i < |z.entries| ensures rr.entries[i] == r.entries[i] {
      LastNamedOwn(z.entries, i);
      LastNamedPreserved(z, doc, z.entries[i].name);
    }
  }

  /** The new archive lists the same names in the same places, so the last entry of a name is the same. */
  lemma LastNamedPreserved(z: Zip, doc: Bytes, name: string)
    requires LastNamed(z.entries, name).Some?
    ensures LastNamed(Rewrite(z, doc).entries, name) == LastNamed(z.entries, name)
  {
    var r := Rewrite(z, doc);
    SameNamesSameLast(z.entries, r.entries, name);
  }

  lemma {:induction false} SameNamesSameLast(a: seq<Entry>, b: seq<Entry>, name: string)
    requires |a| == |b| && forall i :: 0 <= i < |a| ==> a[i].name == b[i].name
    ensures LastNamed(a, name) == LastNamed(b, name)
    decreases |a|
  {
    if a != [] {
      SameNamesSameLast(a[..|a| - 1], b[..|b| - 1], name);
    }
  }

  lemma {:induction false} SameNamesSamePackage(a: seq<Entry>, b: seq<Entry>)
    requires |a| == |b| && forall i :: 0 <= i < |a| ==> a[i].name == b[i].name
    ensures FirstPackageEntry(a) == FirstPackageEntry(b)
    decreases |a|
  {
    if a != [] {
      SameNamesSamePackage(a[1..], b[1..]);
    }
  }
}
