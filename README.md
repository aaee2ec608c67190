# EPUB metadata editor, modelled in Dafny

This project models the metadata layer of a small EPUB metadata editor.

- **Package document.** An EPUB file is a zip archive. Its package document is
  the first entry whose name contains `content.opf`. It is parsed into an lxml
  tree.
- **Metadata element.** The `<metadata>` element is a child of the tree's root.
  Two getter families read its children:
  - *main* fields: Dublin Core `dc:key` children, read through their text;
  - *extension* entries: default-namespace `<meta name=… content=…>` children,
    read through `content`.
- **Series.** The series name and number come from the calibre entries
  `calibre:series` and `calibre:series_index`. When those do not give an index
  of at least 0, a legacy FB2 entry `FB2.book-info.sequence` of the form
  `<series>;<text>` is used instead.
- **Editing.** The series pair can be removed or set again. Title and creator
  are edited by changing the text of the element bound to them. `update`
  writes the archive back entry by entry, putting the serialised tree into
  every package entry.

The repository has two `Book` classes, and both are modelled:

- `epub_metadata/book.py` is the library class. It chooses the *first* root
  child whose tag contains `metadata`, and it resolves the series once, at load
  time.
- `epub_editor.py` is the older script class. It chooses the *last* such
  child. Its `get_meta` scans lazily.

Modules, one per file:

| file | module | what it holds |
|---|---|---|
| `common.dfy` | `Common` | `Option`, bytes |
| `seqs.dfy` | `Seqs` | subsequences (a list comprehension keeps order) |
| `strings.dfy` | `Strings` | Python's `in`, `filter(str.isdigit, …)`, `int()`, `str()`, `split` |
| `xml.dfy` | `Xml` | elements, namespace maps, tag and attribute tests, first/last scans, text edits |
| `epub.dfy` | `Epub` | the lookups and the series resolver of `epub_metadata/epub.py` |
| `epub_edit.dfy` | `EpubEdit` | `remove_book_sequence` and `set_book_sequence`, on values and on a mutable `MetadataContainer` |
| `archive.dfy` | `Archive` | the zip as `zipfile` presents it, `get_book_metadata`/`read_epub_metadata`, and the copy loop of `update` |
| `fields.dfy` | `Fields` | the field-binding loop both classes run |
| `book.dfy` | `BookFacade` | `Book` of `epub_metadata/book.py` |
| `editor.dfy` | `Editor` | `Book` and `get_book_metadata` of `epub_editor.py` |

Python exceptions become preconditions that the caller must meet:

| exception | raised when | precondition |
|---|---|---|
| `KeyError` | a scanned `meta` child has no `name`, or the chosen one has no `content` | `NamesPresent`, `ContentAtFirst`, `LazyLookupDefined` |
| `ValueError` | `int()` is applied to a non-number | `IndexDefined`, `LegacyDefined` |
| `AttributeError` | a property is used while its field is unbound | `fields.title.Some?`, `fields.creator.Some?` |
| `TypeError` | the archive has no package document, or no metadata element was found | `GetBookMetadata(...).Some?` and the corresponding node precondition |

Parsing (`etree.fromstring`) and serialisation (`etree.tostring`) are
function-typed parameters.

Two behaviours of the code that are easy to misread:

- **Legacy digits.** The legacy value `Mistborn;Book 2 of 3` resolves to
  number 23. The code concatenates *all* ASCII digits after the `;`
  (`Epub.ExampleLegacyDigits`).
- **Fallback pair.** When neither source gives a pair, the result is the
  calibre series (or `''`) with the calibre index (or `-1`). It is not always
  `('', -1)` (`Epub.ExampleSeriesWithoutIndex`).

## Model

| member | source | states |
|---|---|---|
| Strings.Digits | epub_metadata/epub.py:62 | the digit filter yields only digits and is no longer than its input |
| Strings.DigitsKeepsDigits | epub_metadata/epub.py:62 | the filter keeps every digit as often as it occurs and drops every other character |
| Strings.DigitsAppend | epub_metadata/epub.py:62 | filtering a concatenation concatenates the filtered parts |
| Strings.NatToString | epub_metadata/epub.py:91 | `str(n)` of a natural is a non-empty digit string without a leading zero |
| Strings.IntToString | epub_metadata/epub.py:91 | `str(num)` is always something `int()` accepts |
| Strings.ParseInt | epub_metadata/epub.py:53 | `int()` of a literal: negative only with a leading `-`, never positive with one, smaller in magnitude than 10 to the length, and the plain digit value for unsigned digits |
| Strings.IntRoundTrip | epub_metadata/epub.py:53 | `int(str(n)) == n` for every integer, so a written index reads back unchanged |
| Strings.NatRoundTrip | epub_metadata/epub.py:62 | parsing the decimal spelling of a natural gives it back |
| Strings.Split | epub_metadata/epub.py:59 | `split(';')` has one more part than separators, no part holds `;`, and joining the parts gives the input back |
| Strings.SplitJoin | epub_metadata/epub.py:59 | splitting undoes joining separator-free parts |
| Strings.SplitInTwo | epub_metadata/epub.py:60 | `len(arr) == 2` exactly when `;` occurs once, and then the parts are the text before and after it |
| Strings.Contains | epub_metadata/epub.py:40 | Python's `sub in s` holds exactly when `sub` occurs at some position of `s` |
| Strings.IndexOf | epub_metadata/epub.py:59 | the position found holds the separator and none precedes it |
| Xml.QualifiedTag | epub_metadata/epub.py:34 | the Clark tag `{uri}key` has the namespace between braces and the local name after them |
| Xml.Filter | epub_metadata/epub.py:35 | a comprehension keeps exactly the matching children, each as often as it occurs, in document order |
| Xml.First | epub_metadata/epub.py:38-41 | the first matching position: it matches and no earlier one does; `None` iff none matches |
| Xml.Last | epub_metadata/book.py:27-35 | the position a loop without `break` keeps: it matches and no later one does; `None` iff none matches |
| Xml.FilterHead | epub_metadata/epub.py:27 | a comprehension is non-empty iff there is a first match, and its head is that match |
| Xml.FilterBoth | epub_metadata/epub.py:12-13 | filtering by tag and then by `name` is filtering once by both tests |
| Xml.FirstBeforeLast | epub_editor.py:28-30 | with two matches, the first match and the last match are different positions |
| Xml.ScansIgnoreText | epub_metadata/book.py:41-43 | changing only texts moves no first or last match |
| Xml.SetChildText | epub_metadata/book.py:43 | `el.text = …` changes that one element's text and nothing else in the tree |
| Seqs.SubsequenceTrans | epub_metadata/epub.py:67-80 | order-preserving selection composes, so three removals keep document order |
| Epub.KeysDistinct | epub_metadata/epub.py:5-7 | the three series keys are pairwise different |
| Epub.FindMetadataItems | epub_metadata/epub.py:30-35 | an unknown prefix gives `[]`; otherwise exactly the children tagged `{nsmap[ns]}key`, in order with their multiplicity |
| Epub.GetMetaItem | epub_metadata/epub.py:10-13 | exactly the default-namespace `meta` children named `key`, in document order; `[]` without a default namespace |
| Epub.FirstMeta | epub_metadata/epub.py:10-13 | the first `meta` child named `key`; no earlier one is such an entry; `None` iff there is none |
| Epub.GetMetaItemHead | epub_metadata/epub.py:18-20 | the entry list is non-empty iff a first entry exists, and its head is that entry |
| Epub.GetMetadataExt | epub_metadata/epub.py:16-21 | the `content` of the first `meta` child named `key`, `None` when there is none |
| Epub.GetMetadataMain | epub_metadata/epub.py:24-27 | the text of the first `dc:key` child; `None` without a `dc` prefix or such a child |
| Epub.GetMetadataNode | epub_metadata/epub.py:38-41 | the first root child whose tag contains `metadata`, or `None` when none does |
| Epub.Resolve | epub_metadata/epub.py:44-64 | index at least 0 gives the calibre pair; else a one-`;` legacy value gives `(before, digits after)` with a `;`-free series and number at least 0; else the calibre series or `''` with the index or -1 |
| Epub.GetBookSequence | epub_metadata/epub.py:44-64 | on the document: a calibre index of at least 0 gives the calibre series (or `''`) with it; otherwise a one-`;` legacy entry gives its part before the `;` and the number its later digits spell (at least 0); otherwise the calibre series (or `''`) with the index (or -1) |
| Epub.SameEntriesSameSequence | epub_metadata/epub.py:44-64 | the resolved pair depends only on the first entry of each of the three keys |
| Epub.ShapeSameEntry | epub_metadata/epub.py:10-13 | the lookups read tags and attributes only, never text |
| Epub.SequenceIgnoresText | epub_metadata/epub.py:44-64 | editing texts keeps the resolved pair (so the cached pair of `Book` stays right after title edits) |
| Epub.NoEntriesNoSeries | epub_metadata/epub.py:46 | with none of the three keys present the result is `('', -1)` |
| Epub.SingleEntryLookup | epub_metadata/epub.py:16-21 | a single OPF `meta` entry is found under its own name only, with its content |
| Epub.LegacyPairResolves | epub_metadata/epub.py:57-63 | any `<series>;<rest>` with digits in `rest` resolves to the series and the number those digits spell |
| Epub.ExampleLegacyNumber | epub_metadata/epub.py:62 | the digits of `Book 2 of 3` are `23` |
| Epub.ExampleLegacyDigits | epub_metadata/epub.py:57-63 | `Mistborn;Book 2 of 3` resolves to `('Mistborn', 23)` |
| Epub.ExampleLegacyDocument | epub_metadata/epub.py:44-64 | a document holding only that legacy entry reads back `('Mistborn', 23)` |
| Epub.ExampleVendorWins | epub_metadata/epub.py:54-55 | a calibre index of 3 wins over a legacy entry |
| Epub.ExampleSeriesWithoutIndex | epub_metadata/epub.py:64 | a calibre series without index and no legacy entry gives `('Saga', -1)` |
| Epub.ExampleTwoSeparators | epub_metadata/epub.py:60 | a legacy value with two `;` is ignored |
| EpubEdit.RemoveFirstMeta | epub_metadata/epub.py:69-72 | removal drops exactly the first entry named `key` (one element fewer, that one out of the multiset), keeps order, and keeps every scanned `meta` named |
| EpubEdit.RemoveKeepsOthers | epub_metadata/epub.py:69-72 | every element that is not an entry for `key` keeps its multiplicity |
| EpubEdit.RemoveUnique | epub_metadata/epub.py:69-72 | with at most one entry for `key`, none is left afterwards |
| EpubEdit.RemoveKeepsAbsent | epub_metadata/epub.py:73-80 | removing for one key creates no entry for another |
| EpubEdit.RemoveKeepsUnique | epub_metadata/epub.py:73-80 | removal keeps another key's entries unique |
| EpubEdit.WithoutSequence | epub_metadata/epub.py:67-80 | the three removals remove at most three elements, keep order, and change nothing without a default namespace |
| EpubEdit.WithoutSequenceKeepsOthers | epub_metadata/epub.py:67-80 | every element that is none of the three series entries keeps its multiplicity |
| EpubEdit.WithoutSequenceClears | epub_metadata/epub.py:67-80 | when each series key occurs at most once, none occurs afterwards |
| EpubEdit.NothingToRemove | epub_metadata/epub.py:67-80 | without series entries the removal is the identity |
| EpubEdit.NewMeta | epub_metadata/epub.py:86-88 | `SubElement` with `name` and `content` set: exactly those two attributes, no text, no children |
| EpubEdit.WithSequence | epub_metadata/epub.py:83-91 | as written: the removal result followed by two bare `meta` elements with the series and `str(num)` |
| EpubEdit.AppendedEntries | epub_metadata/epub.py:87-91 | the appended pair holds the series and an index text that `int()` reads back as `num` |
| EpubEdit.BareTagIsNotMeta | epub_metadata/epub.py:86 | a bare `meta` tag never equals `{uri}meta`, so the lookups never see it |
| EpubEdit.SetThenGetMisses | epub_metadata/epub.py:83-91 | as written, every lookup after the edit sees only what the removal left |
| EpubEdit.SetThenGetLosesSeries | epub_metadata/epub.py:83-91 | as written, setting a series and reading it back gives `('', -1)` |
| EpubEdit.SetTwiceGrows | epub_metadata/epub.py:83-91 | as written, setting twice appends a second pair instead of replacing the first |
| EpubEdit.MetaTagFound | epub_metadata/epub.py:34 | an element tagged `{default}meta` is found exactly under its own name, when there is a default namespace |
| EpubEdit.WithSequenceQualified | epub_metadata/epub.py:83-91 | corrected: the removal result followed by the pair tagged in the default namespace |
| EpubEdit.FirstOfPair | epub_metadata/epub.py:10-13 | the first entry after appending two elements to a list without entries |
| EpubEdit.QualifiedAppendFound | epub_metadata/epub.py:83-91 | corrected: the lookups find the appended series and index entries, and no legacy entry |
| EpubEdit.QualifiedContents | epub_metadata/epub.py:83-91 | corrected: the lookups read back exactly the series and `str(num)` |
| EpubEdit.SetQualifiedRoundTrip | epub_metadata/epub.py:83-91 | corrected: set, then `get_book_sequence`, gives exactly `(series, num)` |
| EpubEdit.SetQualifiedIdempotent | epub_metadata/epub.py:83-91 | corrected: setting the same pair twice leaves the children as setting it once |
| EpubEdit.NamesAfterAppend | epub_metadata/epub.py:87-90 | the appended elements carry a `name`, so later scans raise no `KeyError` |
| EpubEdit.MetadataContainer.RemoveFirst | epub_metadata/epub.py:69-72 | in place: the children become `RemoveFirstMeta` of the old children |
| EpubEdit.MetadataContainer.RemoveBookSequence | epub_metadata/epub.py:67-80 | in place: the children become `WithoutSequence` of the old children |
| EpubEdit.MetadataContainer.SetBookSequence | epub_metadata/epub.py:83-91 | in place, as written: the children become `WithSequence` of the old children |
| EpubEdit.MetadataContainer.SetBookSequenceQualified | epub_metadata/epub.py:83-91 | in place, corrected: the children become `WithSequenceQualified` of the old children |
| Archive.LastNamed | epub_metadata/book.py:78 | `zin.read(name)` reads the last entry of that name: it has the name and no later entry does |
| Archive.ReadEntry | epub_metadata/book.py:78 | `zin.read(name)` gives the data of the entry called `name` after which no entry has that name |
| Archive.ReadOwnEntry | epub_metadata/book.py:78 | with unique names, reading an entry's own name gives its data |
| Archive.FirstPackageEntry | epub_metadata/file.py:9-10 | the first entry whose name contains `content.opf`; no earlier one does; `None` iff there is none |
| Archive.GetBookMetadata | epub_editor.py:96-101 | `None` iff no entry is a package document; otherwise the parse of the data read under the first package entry's name |
| Archive.GetBookMetadataFirst | epub_metadata/file.py:6-12 | with unique names, the tree is the parse of the first package entry's own data |
| Archive.Rewrite | epub_metadata/book.py:74-83 | the written archive keeps the comment, the entry count and each entry's name and info, and puts the new document into every package entry |
| Archive.RewriteZip | epub_metadata/book.py:77-83 | the copy loop builds exactly `Rewrite` |
| Archive.RewriteKeepsOthers | epub_metadata/book.py:77-83 | with unique names, every other entry is copied unchanged |
| Archive.RewriteReadBack | epub_metadata/book.py:70-86 | reading the package document from the written archive gives the new document |
| Archive.RewriteIdempotent | epub_metadata/book.py:70-86 | writing the same document twice gives the same archive as once |
| Archive.LastNamedPreserved | epub_metadata/book.py:77-83 | the written archive reads each name from the same position |
| Archive.SameNamesSamePackage | epub_metadata/book.py:79 | archives with the same names pick the same package entry |
| Fields.LastStep | epub_metadata/book.py:27-35 | one loop step: a match replaces the binding, otherwise it stays |
| Fields.BindFields | epub_metadata/book.py:27-35 | the loop binds each field to the last child whose tag contains its word, or leaves it unbound |
| Fields.BindingsIgnoreText | epub_metadata/book.py:41-51 | editing texts moves no binding |
| BookFacade.Book.constructor | epub_metadata/book.py:18-35 | the tree read from the archive, the first metadata child, the resolved pair cached, fields as the loop binds them |
| BookFacade.Book.Title | epub_metadata/book.py:37-39 | the text of the last child whose tag contains `title` |
| BookFacade.Book.Creator | epub_metadata/book.py:45-47 | the text of the last child whose tag contains `creator` |
| BookFacade.Book.TextChangeKeepsValid | epub_metadata/book.py:41-51 | a text edit keeps the metadata choice, the bindings and the cached series pair |
| BookFacade.Book.SetTitle | epub_metadata/book.py:41-43 | only the bound title's text changes; the invariant holds; the getter returns the new title |
| BookFacade.Book.SetCreator | epub_metadata/book.py:49-51 | only the bound creator's text changes; the invariant holds; the getter returns the new creator |
| BookFacade.Book.Series | epub_metadata/book.py:53-59 | the cached pair equals the resolver applied to the current metadata |
| BookFacade.Book.GetMetadata | epub_metadata/book.py:61-62 | the metadata children tagged `{nsmap[ns]}key`, in order; `[]` for an unknown prefix |
| BookFacade.Book.GetDc | epub_metadata/book.py:64-65 | the text of the first `dc:key` child, or `None` |
| BookFacade.Book.GetMeta | epub_metadata/book.py:67-68 | the `content` of the first `meta` child named `key`, or `None` |
| BookFacade.Book.Update | epub_metadata/book.py:70-86 | the written archive is `Rewrite` with the serialised tree |
| BookFacade.UpdatePersists | epub_metadata/book.py:70-86 | if the parser reads the serialisation back, reloading after `update` gives the same tree |
| Editor.LazyLookup | epub_editor.py:68-72 | some iff a `meta` child named `key` exists, then the `content` of the first one |
| Editor.LazyDefinedFrom | epub_editor.py:68-72 | all entries named and a `content` at the first match suffice for the lazy scan |
| Editor.MetaLookupsAgree | epub_editor.py:68-72 | where the library lookup is defined, the lazy scan is defined and agrees with it |
| Editor.LazyToleratesLaterNameless | epub_editor.py:68-72 | a nameless `meta` after the match breaks the library lookup but not the lazy scan |
| Editor.ContainersDiffer | epub_editor.py:28-30 | with two metadata-like root children, the two classes choose different ones |
| Editor.SingleContainerAgrees | epub_editor.py:28-30 | with at most one metadata-like root child, both classes choose the same one |
| Editor.SelectMetadata | epub_editor.py:28-30 | the selection loop keeps the last root child whose tag contains `metadata`, or none |
| Editor.Book.constructor | epub_editor.py:23-39 | the selection loop keeps the last root child whose tag contains `metadata`; fields as the loop binds them |
| Editor.Book.Title | epub_editor.py:41-43 | the text of the last child whose tag contains `title` |
| Editor.Book.Creator | epub_editor.py:49-51 | the text of the last child whose tag contains `creator` |
| Editor.Book.TextChangeKeepsValid | epub_editor.py:45-55 | a text edit keeps the metadata choice and the bindings |
| Editor.Book.SetTitle | epub_editor.py:45-47 | only the bound title's text changes; the getter returns the new title |
| Editor.Book.SetCreator | epub_editor.py:53-55 | only the bound creator's text changes; the getter returns the new creator |
| Editor.Book.GetMetadata | epub_editor.py:57-61 | the metadata children tagged `{nsmap[ns]}key`, in order; `[]` for an unknown prefix |
| Editor.Book.GetDc | epub_editor.py:63-66 | the text of the first `dc:key` child, or `None` |
| Editor.Book.GetMeta | epub_editor.py:68-72 | the loop returns at the first `meta` child named `key`, or `None` |
| Editor.Book.Update | epub_editor.py:74-90 | the written archive is `Rewrite` with the serialised tree |

## Left out

- File I/O: opening the archive, `tempfile.mkstemp`, and replacing the original with `os.remove`/`os.rename` (a non-atomic swap). The model works on the archive as a value.
- XML parsing and serialisation (`etree.fromstring`, `etree.tostring` with its `doctype` prolog and pretty printing): both are parameters. `BookFacade.UpdatePersists` assumes that the parser reads the serialisation back.
- Zip internals (CRC, sizes, compression, local headers): an entry is its name, the copied `ZipInfo` fields and its uncompressed data.
- Logging and `__repr__`: they produce only text for people and change no state.
- Comments and processing instructions, which lxml also yields when iterating an element: only elements are modelled.
- Non-ASCII digits: `str.isdigit` and `int()` accept them in Python. The model handles ASCII digits only.
- Whitespace and underscores that `int()` tolerates: `Strings.IsIntLiteral` admits an optional sign and ASCII digits only. Anything else is treated as a `ValueError` input.
- `_language` and `_identifier`: both are bound (`Fields.BindFields`) but the source has no getter for them.
- Object identity: elements are values, and a bound field is a position in its parent's children. This can differ from the source in two ways:
  - several references to one lxml element are not modelled;
  - an edit made through one reference is not visible through another.
- Archive.Rewrite: when two entries share a name, `zipfile` reads the last of them for both. The model follows that. `Archive.RewriteKeepsOthers` and `Archive.GetBookMetadataFirst` state their property only for archives with unique names.
- EpubEdit.WithoutSequenceClears: removes only the first entry per key, as the source does. It states "no entry left" only when each key occurs at most once.
- EpubEdit.SetQualifiedRoundTrip: requires each series key at most once and a default namespace in the document. With duplicates, an older entry can still shadow the new one.
- Editor.Book.GetMeta: its precondition is the lazy scan's own `KeyError` condition, which is weaker than the library's (see `Editor.LazyToleratesLaterNameless`).
- `epub_metadata/reader.py` and the command-line parts of `epub_editor.py` (argument parsing, globbing, the main loop): they are outside the metadata layer.

## Findings

| source | as written | input that shows it | evidently intended | confidence | as-written member | corrected member |
|---|---|---|---|---|---|---|
| epub_metadata/epub.py:86-91 | `set_book_sequence` creates the series pair with the bare tag `meta`, but the lookups compare against `{default namespace}meta` | any OPF document with a default namespace and unique series entries. `set_book_sequence(root, md, 'Saga', 3)` followed by `get_book_sequence` gives `('', -1)`, and a second call appends a second pair. This concerns the tree in memory, which `Book` works on and `update` serialises; a re-parse of the serialised text may read the bare `meta` into the default namespace | the pair is created in the default namespace, so that set followed by get returns `(series, num)` and setting twice is the same as once | not executed | EpubEdit.SetThenGetLosesSeries | EpubEdit.SetQualifiedRoundTrip |
