/**
  The abstract contents of the archive entries an EPUB 3 package is made of. The
  XML documents are kept as trees of the values that matter, not as bytes.
 */
module EpubPayload {

  /** Name and only content of the first entry (the Open Container Format, section 4 of EPUB 3.3). */
  const MimetypeName := "mimetype"
  const EpubMediaType := "application/epub+zip"

  /** The container document that points readers at the package document. */
  const ContainerName := "META-INF/container.xml"
  const PackageMediaType := "application/oebps-package+xml"

  /** Directory inside the archive holding the package document and every content document. */
  const ContentRoot := "EPUB/"

  const PackageHref := "package.opf"
  const XhtmlSuffix := ".xhtml"
  const XhtmlMediaType := "application/xhtml+xml"

  /** Id and file stem of the generated navigation document, and the `nav` manifest property. */
  const TocId := "toc"
  const NavProperty := "nav"
  const TocTitle := "Table of Contents"

  const PackageVersion := "3.0"
  const IdentifierId := "pub-identifier"
  const Language := "en"

  /** The href of the XHTML document whose file stem is `stem`, relative to the content root. */
  function Href(stem: string): string
  {
    stem + XhtmlSuffix
  }

  /** The archive entry name of a file whose href relative to the content root is `href`. */
  function EntryName(href: string): string
  {
    ContentRoot + href
  }

  /** The fixed names spelled out as the generator writes them. */
  lemma SpelledOut()
    ensures Href(TocId) == "toc.xhtml"
    ensures EntryName(Href(TocId)) == "EPUB/toc.xhtml"
    ensures EntryName(PackageHref) == "EPUB/package.opf"
  {
  }

  /** A content document's entry name spelled as the generator builds it. */
  lemma ContentNameSpelledOut(stem: string)
    ensures EntryName(Href(stem)) == "EPUB/" + stem + ".xhtml"
  {
  }

  datatype Option<T> = None | Some(value: T)

  /** The single `rootfile` of `container.xml`. */
  datatype Container = Container(rootPath: string, mediaType: string)

  /** One `<li><a href="...">text</a></li>` of the navigation list. */
  datatype NavLink = NavLink(href: string, text: string)

  /** The navigation document: page title, `h1`, and the `nav` element with its ordered list. */
  datatype Nav = Nav(title: string, heading: string, navId: string, epubType: string, links: seq<NavLink>)

  /** Package metadata (section 5.5 of EPUB 3.3). */
  datatype Metadata = Metadata(
    identifier: string,
    identifierId: string,
    title: string,
    creator: string,
    language: string,
    modified: string)

  /** A manifest item (section 5.6 of EPUB 3.3). */
  datatype Item = Item(id: string, href: string, mediaType: string, properties: Option<string>)

  /** The package document: metadata, manifest and spine idrefs (sections 5.5 to 5.7 of EPUB 3.3). */
  datatype Package = Package(
    version: string,
    uniqueIdentifier: string,
    metadata: Metadata,
    manifest: seq<Item>,
    spine: seq<string>)

  /** The body of a content document: the parsed fragment, or nothing when the fragment did not parse. */
  datatype Body = Fragment(markup: string) | NoNodes

  datatype Payload =
    | Mimetype(text: string)
    | ContainerDoc(container: Container)
    | NavDoc(nav: Nav)
    | PackageDoc(opf: Package)
    | ContentDoc(title: string, body: Body)

  /** One archive entry: its name and what is written under it. */
  datatype Entry = Entry(name: string, payload: Payload)
}
