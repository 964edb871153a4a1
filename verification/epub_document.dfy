/**
  The book being assembled (name, author, identifier, output directory and the
  sections in insertion order) and the plan of archive entries its generation writes.
 */
module EpubDocument {
  import opened EpubSection
  import opened EpubPayload

  datatype Document = Document(
    name: string,
    author: string,
    identifier: string,
    path: string,
    sections: seq<Section>)

  datatype Result<T> = Ok(value: T) | Failure(message: string)

  /** A generated book: the path of the `.epub` file and the entries written into it, in order. */
  datatype Epub = Epub(filePath: string, entries: seq<Entry>)

  const OpenFailureMessage := "Could not initiate epub (ZIP) file in memory"

  /** The argument error `ZipArchive::open` throws for a file name holding a NUL byte, before any open is tried. */
  const NulFileNameMessage := "ZipArchive::open(): Argument #1 ($filename) must not contain any null bytes"

  /** A new book has its four strings and no sections yet. */
  function NewDocument(name: string, author: string, identifier: string, path: string): (d: Document)
    ensures d.sections == []
    ensures d.name == name && d.author == author && d.identifier == identifier && d.path == path
  {
    Document(name, author, identifier, path, [])
  }

  /** Appends one section at the end; the earlier sections and the book's strings stay as they were. */
  function AddSection(d: Document, sectionName: string, sectionTitle: string, content: string): (d': Document)
    ensures |d'.sections| == |d.sections| + 1
    ensures d'.sections[..|d.sections|] == d.sections
    ensures d'.sections[|d.sections|].GetSectionName() == sectionName
    ensures d'.sections[|d.sections|].GetSectionTitle() == sectionTitle
    ensures d'.sections[|d.sections|].GetContent() == content
    ensures d'.name == d.name && d'.author == d.author && d'.identifier == d.identifier && d'.path == d.path
  {
    d.(sections := d.sections + [NewSection(sectionName, sectionTitle, content)])
  }

  /** The `mimetype` entry: always first, always the EPUB media type. */
  function MimetypeEntry(): (e: Entry)
    ensures e.name == MimetypeName && e.payload.Mimetype?
    ensures e.payload.text == EpubMediaType
  {
    Entry("mimetype", Mimetype("application/epub+zip"))
  }

  /** `META-INF/container.xml`: names the package document entry as the root file. */
  function ContainerEntry(): (e: Entry)
    ensures e.name == ContainerName && e.payload.ContainerDoc?
    ensures e.payload.container.rootPath == EntryName(PackageHref)
    ensures e.payload.container.mediaType == PackageMediaType
  {
    SpelledOut();
    Entry("META-INF/container.xml", ContainerDoc(Container("EPUB/package.opf", "application/oebps-package+xml")))
  }

  /** One link per section, in section order, to the section's document and showing its title. */
  function NavLinks(sections: seq<Section>): (links: seq<NavLink>)
    ensures |links| == |sections|
    ensures forall i :: 0 <= i < |sections| ==>
      links[i].href == Href(sections[i].GetSectionName()) && links[i].text == sections[i].GetSectionTitle()
  {
    if sections == [] then []
    else
      var last := sections[|sections| - 1];
      NavLinks(sections[..|sections| - 1]) + [NavLink(last.GetSectionName() + ".xhtml", last.GetSectionTitle())]
  }

  /** `EPUB/toc.xhtml`: the navigation document whose `nav` has id and type `toc`. */
  function TocEntry(sections: seq<Section>): (e: Entry)
    ensures e.name == EntryName(Href(TocId)) && e.payload.NavDoc?
    ensures e.payload.nav.navId == TocId && e.payload.nav.epubType == TocId
    ensures e.payload.nav.title == TocTitle && e.payload.nav.heading == TocTitle
    ensures |e.payload.nav.links| == |sections|
    ensures forall i :: 0 <= i < |sections| ==>
      && e.payload.nav.links[i].href == Href(sections[i].GetSectionName())
      && e.payload.nav.links[i].text == sections[i].GetSectionTitle()
  {
    SpelledOut();
    Entry("EPUB/toc.xhtml", NavDoc(Nav("Table of Contents", "Table of Contents", "toc", "toc", NavLinks(sections))))
  }

  /** The manifest item of the navigation document, the only item with a property. */
  function TocItem(): (item: Item)
    ensures item.id == TocId && item.href == Href(TocId)
    ensures item.mediaType == XhtmlMediaType && item.properties == Some(NavProperty)
  {
    SpelledOut();
    Item("toc", "toc.xhtml", "application/xhtml+xml", Some("nav"))
  }

  /** One XHTML manifest item per section, in section order, with the section name as id and file stem. */
  function SectionItems(sections: seq<Section>): (items: seq<Item>)
    ensures |items| == |sections|
    ensures forall i :: 0 <= i < |sections| ==>
      && items[i].id == sections[i].GetSectionName()
      && items[i].href == Href(sections[i].GetSectionName())
      && items[i].mediaType == XhtmlMediaType
      && items[i].properties == None
  {
    if sections == [] then []
    else
      var last := sections[|sections| - 1];
      var name := last.GetSectionName();
      SectionItems(sections[..|sections| - 1]) + [Item(name, name + ".xhtml", "application/xhtml+xml", None)]
  }

  /** The spine idrefs of the sections: their names in section order. */
  function SectionRefs(sections: seq<Section>): (refs: seq<string>)
    ensures |refs| == |sections|
    ensures forall i :: 0 <= i < |sections| ==> refs[i] == sections[i].GetSectionName()
  {
    if sections == [] then []
    else SectionRefs(sections[..|sections| - 1]) + [sections[|sections| - 1].GetSectionName()]
  }

  /** Book metadata; `modified` stands for the generation time already formatted. */
  function PackageMetadata(d: Document, modified: string): (m: Metadata)
    ensures m.identifier == d.identifier && m.identifierId == IdentifierId
    ensures m.title == d.name && m.creator == d.author
    ensures m.language == Language && m.modified == modified
  {
    Metadata(d.identifier, "pub-identifier", d.name, d.author, "en", modified)
  }

  /** The manifest: the navigation document's item, then one item per section in section order. */
  function Manifest(sections: seq<Section>): (manifest: seq<Item>)
    ensures |manifest| == |sections| + 1
    ensures manifest[0] == TocItem()
    ensures forall i :: 0 <= i < |sections| ==>
      && manifest[i + 1].id == sections[i].GetSectionName()
      && manifest[i + 1].href == Href(sections[i].GetSectionName())
      && manifest[i + 1].mediaType == XhtmlMediaType
      && manifest[i + 1].properties == None
  {
    var items := SectionItems(sections);
    OneThenRest(TocItem(), items);
    [TocItem()] + items
  }

  /** The spine: the navigation document first, then the sections in insertion order. */
  function Spine(sections: seq<Section>): (spine: seq<string>)
    ensures |spine| == |sections| + 1
    ensures spine[0] == TocId
    ensures forall i :: 0 <= i < |sections| ==> spine[i + 1] == sections[i].GetSectionName()
  {
    var refs := SectionRefs(sections);
    OneThenRest("toc", refs);
    ["toc"] + refs
  }

  /** `EPUB/package.opf`: the package document, whose unique identifier refers to the identifier's id. */
  function PackageEntry(d: Document, modified: string): (e: Entry)
    ensures e.name == EntryName(PackageHref) && e.payload.PackageDoc?
    ensures e.payload.opf.version == PackageVersion
    ensures e.payload.opf.uniqueIdentifier == e.payload.opf.metadata.identifierId
    ensures e.payload.opf.metadata == PackageMetadata(d, modified)
    ensures e.payload.opf.manifest == Manifest(d.sections)
    ensures e.payload.opf.spine == Spine(d.sections)
  {
    SpelledOut();
    Entry("EPUB/package.opf",
      PackageDoc(Package("3.0", "pub-identifier", PackageMetadata(d, modified), Manifest(d.sections), Spine(d.sections))))
  }

  /**
    The content document of one section. Its body holds the fragment when the
    fragment parses as XML; otherwise the fragment adds no nodes and the body is empty.
   */
  function ContentEntry(s: Section, wellFormed: string -> bool): (e: Entry)
    ensures e.name == EntryName(Href(s.GetSectionName())) && e.payload.ContentDoc?
    ensures e.payload.title == s.GetSectionTitle()
    ensures e.payload.body.Fragment? <==> wellFormed(s.GetContent())
    ensures e.payload.body.Fragment? ==> e.payload.body.markup == s.GetContent()
  {
    ContentNameSpelledOut(s.GetSectionName());
    var body := if wellFormed(s.GetContent()) then Fragment(s.GetContent()) else NoNodes;
    Entry("EPUB/" + s.GetSectionName() + ".xhtml", ContentDoc(s.GetSectionTitle(), body))
  }

  /** One content document entry per section, in section order. */
  function ContentEntries(sections: seq<Section>, wellFormed: string -> bool): (entries: seq<Entry>)
    ensures |entries| == |sections|
    ensures forall i :: 0 <= i < |sections| ==> entries[i] == ContentEntry(sections[i], wellFormed)
  {
    if sections == [] then []
    else ContentEntries(sections[..|sections| - 1], wellFormed) + [ContentEntry(sections[|sections| - 1], wellFormed)]
  }

  /**
    The entries generation writes, in order: `mimetype`, the container, the
    navigation document, the package document, then one document per section.
   */
  function Plan(d: Document, modified: string, wellFormed: string -> bool): (entries: seq<Entry>)
    ensures |entries| == 4 + |d.sections|
    ensures entries[0].name == MimetypeName && entries[0].payload == Mimetype(EpubMediaType)
    ensures entries[1] == ContainerEntry() && entries[2] == TocEntry(d.sections)
    ensures entries[3] == PackageEntry(d, modified)
    ensures forall i :: 0 <= i < |d.sections| ==> entries[4 + i] == ContentEntry(d.sections[i], wellFormed)
  {
    var mimetype, container, toc, opf := MimetypeEntry(), ContainerEntry(), TocEntry(d.sections), PackageEntry(d, modified);
    var contents := ContentEntries(d.sections, wellFormed);
    FourThenRest(mimetype, container, toc, opf, contents);
    [mimetype, container, toc, opf] + contents
  }

  /** A value followed by a sequence: position 0 holds the value, position `i + 1` holds `rest[i]`. */
  lemma OneThenRest<T>(a: T, rest: seq<T>)
    ensures var s := [a] + rest;
      && |s| == 1 + |rest| && s[0] == a
      && forall i :: 0 <= i < |rest| ==> s[i + 1] == rest[i]
  {
  }

  /** Four values followed by a sequence: positions 0 to 3 hold the four, position `4 + i` holds `rest[i]`. */
  lemma FourThenRest<T>(a: T, b: T, c: T, e: T, rest: seq<T>)
    ensures var s := [a, b, c, e] + rest;
      && |s| == 4 + |rest| && s[0] == a && s[1] == b && s[2] == c && s[3] == e
      && forall i :: 0 <= i < |rest| ==> s[4 + i] == rest[i]
  {
  }

  /** `<directory><separator><book name>.epub`, where the archive is created. */
  function EpubFilePath(d: Document, separator: string): string
  {
    d.path + separator + d.name + ".epub"
  }

  /**
    Generation: opens the archive at the book's file path and, when that works,
    writes the planned entries and returns the path; otherwise fails without a path.
    A file path holding a NUL byte is refused with an argument error before any open
    is tried. `separator` is the platform's directory separator and `archiveOpens`
    says whether the archive can be opened at a path.
   */
  function GenerateEpub(
    d: Document, modified: string, separator: string,
    archiveOpens: string -> bool, wellFormed: string -> bool): (r: Result<Epub>)
    ensures r.Ok? <==> '\0' !in d.path + separator + d.name && archiveOpens(EpubFilePath(d, separator))
    ensures r.Ok? ==> r.value.filePath == d.path + separator + d.name + ".epub"
    ensures r.Ok? ==> r.value.entries == Plan(d, modified, wellFormed)
    ensures r.Failure? ==>
      (r.message == NulFileNameMessage <==> '\0' in d.path || '\0' in separator || '\0' in d.name)
    ensures r.Failure? ==> (r.message == OpenFailureMessage <==> '\0' !in d.path + separator + d.name)
  {
    var epubFile := EpubFilePath(d, separator);
    if '\0' in epubFile then Failure(NulFileNameMessage)
    else if archiveOpens(epubFile) then Ok(Epub(epubFile, Plan(d, modified, wellFormed)))
    else Failure(OpenFailureMessage)
  }
}
