# EPUB package assembly, modelled in Dafny

This project models how `EpubDocument` of the epub-generator library turns a book
(name, author, identifier, output directory) and its sections, in the order they
were added, into the entries of an EPUB 3 archive. Generation writes, in this order:

1. `mimetype`, holding `application/epub+zip` (the Open Container Format, section 4 of EPUB 3.3);
2. `META-INF/container.xml`, whose single root file is `EPUB/package.opf` with media type `application/oebps-package+xml`;
3. `EPUB/toc.xhtml`, the navigation document (section 7 of EPUB 3.3): a `nav` with id and `epub:type` `toc` holding one `<li><a href="name.xhtml">title</a></li>` per section;
4. `EPUB/package.opf`, the package document (sections 5.5–5.7 of EPUB 3.3): metadata, the manifest with the `toc` item carrying the `nav` property followed by one item per section, and the spine with `toc` followed by the section names;
5. `EPUB/<name>.xhtml` for each section, a document titled by the section title whose body holds the section's XHTML fragment.

Generation returns `<path><separator><name>.epub`, or fails with
`Could not initiate epub (ZIP) file in memory` when the archive cannot be opened.
A file path holding a NUL byte fails earlier: `ZipArchive::open` refuses it with an
argument error, and the `RuntimeException` is never reached.

Files:

- `epub_section.dfy` — module `EpubSection`: the immutable section record and its three getters.
- `epub_payload.dfy` — module `EpubPayload`: the fixed names and media types, `Href` and `EntryName`, and the abstract payloads (container, navigation document, package document, content document).
- `epub_document.dfy` — module `EpubDocument`: the book state, `AddSection`, one builder per generated file, `Plan` (the ordered entries) and `GenerateEpub`.
- `epub_properties.dfy` — module `EpubProperties`: how the entries, manifest, spine and navigation list agree with each other and with the sections, and when names are distinct.
- `text.dfy` — module `Text`: a string fact used to tell entry names apart.

The builders write the same string literals the generator writes (`"EPUB/toc.xhtml"`,
`"toc.xhtml"`, `"EPUB/package.opf"`, `"pub-identifier"` and so on), and their contracts
state the results through one naming scheme (`Href(stem)` is `stem + ".xhtml"`,
`EntryName(href)` is `"EPUB/" + href`), so the proofs check that the separately
written literals agree with each other.

Payloads are abstract trees of the values that matter, not serialized XML. Three
things the code gets from its environment are parameters: the generation time
(`modified`, already formatted), the platform's directory separator (`separator`),
and whether the archive can be opened at a path (`archiveOpens`). Whether a
section's fragment parses as XML is the parameter `wellFormed`: the code calls
`appendXML`, which on a malformed fragment returns false with a warning and adds
no nodes, and generation carries on, so the model gives that section an empty body.

The code writes the navigation document before the package document. It handles
no images, stylesheets or cover page. The navigation document is not one of the
sections. It never chooses a compression method for `mimetype`. A malformed
fragment does not stop generation.

## Model

| member | source | states |
|---|---|---|
| EpubSection.NewSection | src/EpubSection.php:18-50 | any three strings are accepted, and the getters give back exactly the name, title and content the section was built with |
| EpubSection.GettersDetermineSection | src/EpubSection.php:5-50 | a section holds nothing beyond what its three getters return: two sections are equal exactly when their getters agree |
| EpubDocument.NewDocument | src/EpubDocument.php:23-29 | a new book keeps its name, author, identifier and path and has no sections |
| EpubDocument.AddSection | src/EpubDocument.php:43-46 | one section is added at the end with the given name, title and content; earlier sections and the book's four strings are unchanged |
| EpubDocument.MimetypeEntry | src/EpubDocument.php:119-122 | the `mimetype` entry holds exactly `application/epub+zip` |
| EpubDocument.ContainerEntry | src/EpubDocument.php:130-146 | the container's root path is the package document's entry name and its media type is the package media type |
| EpubDocument.NavLinks | src/EpubDocument.php:191-198 | one link per section, in section order; link i points at section i's name plus `.xhtml` and shows its title |
| EpubDocument.TocEntry | src/EpubDocument.php:154-203 | `EPUB/toc.xhtml` holds a nav with id and type `toc`, titled Table of Contents, with one link per section as above |
| EpubDocument.TocItem | src/EpubDocument.php:240-245 | the navigation item has id `toc`, href `toc.xhtml`, XHTML media type and property `nav` |
| EpubDocument.SectionItems | src/EpubDocument.php:247-253 | one item per section in section order, with the name as id, name plus `.xhtml` as href, XHTML media type and no properties |
| EpubDocument.SectionRefs | src/EpubDocument.php:264-268 | the section idrefs are the section names in section order |
| EpubDocument.Manifest | src/EpubDocument.php:237-253 | the manifest has one more item than there are sections: the `toc` item first, then item i+1 describing section i |
| EpubDocument.Spine | src/EpubDocument.php:255-268 | the spine has `toc` first, then section i's name at position i+1 |
| EpubDocument.PackageMetadata | src/EpubDocument.php:222-235 | identifier, title (book name), creator (author), language `en` and the supplied modification time; the identifier's id is `pub-identifier` |
| EpubDocument.PackageEntry | src/EpubDocument.php:211-273 | `EPUB/package.opf` is a version 3.0 package whose unique-identifier refers to the identifier's id, with this metadata, manifest and spine |
| EpubDocument.ContentEntry | src/EpubDocument.php:85-109 | a section's entry is `EPUB/<name>.xhtml`, titled by the section title; its body holds the fragment exactly when the fragment parses |
| EpubDocument.ContentEntries | src/EpubDocument.php:82-111 | one content entry per section, in section order |
| EpubDocument.Plan | src/EpubDocument.php:53-62 | there are 4 + number of sections entries: `mimetype` holding the EPUB media type, the container, the navigation document and the package document, then the content entry of section i at position 4 + i |
| EpubDocument.GenerateEpub | src/EpubDocument.php:53-70 | generation succeeds exactly when `<path><separator><name>.epub` holds no NUL byte and the archive opens there; it then returns that path and the planned entries; a NUL byte in the path, separator or name gives the file-name argument error, and otherwise a failed open gives the open-failure error, with no path either way |
| EpubProperties.PlanLayout | src/EpubDocument.php:58-62 | the entry names are, in order, `mimetype`, `META-INF/container.xml`, `EPUB/toc.xhtml`, `EPUB/package.opf`, then `EPUB/<name>.xhtml` for each section in insertion order, 4 + number of sections in all |
| EpubProperties.FixedEntriesIndependentOfBook | src/EpubDocument.php:119-146 | the `mimetype` and container entries are the same for every book, time and fragment |
| EpubProperties.ContainerNamesPackage | src/EpubDocument.php:138-145 | the container's root path is the name of the entry the package document is written to |
| EpubProperties.SpineMatchesManifest | src/EpubDocument.php:240-268 | the spine idrefs are exactly the manifest ids, in manifest order |
| EpubProperties.ManifestMatchesEntries | src/EpubDocument.php:240-253 | every manifest href has an entry `EPUB/<href>`, and every entry except `mimetype`, the container and the package document is the entry of a manifest href |
| EpubProperties.NavMatchesManifest | src/EpubDocument.php:182-198 | link i of the navigation list has the href of manifest item i+1, and planned entry 4+i is written under that href as a content document titled by the link text |
| EpubProperties.NavHrefHasOneEntry | src/EpubDocument.php:192-198 | with distinct section names, none of them `toc`, planned entry 4+i is the only write under link i's href |
| EpubProperties.ContentDocumentsFollowSections | src/EpubDocument.php:82-111 | content entry i is the document of section i: it carries section i's title, and its body is the fragment when it parses and empty otherwise |
| EpubProperties.ManifestIdsDistinctIff | src/EpubDocument.php:240-253 | manifest ids are pairwise distinct if and only if the section names are pairwise distinct and none is `toc` |
| EpubProperties.LayoutNamesDistinctIff | src/EpubDocument.php:58-62 | for entries laid out as the plan lays them out, entry names are pairwise distinct if and only if section names are distinct and none is `toc` |
| EpubProperties.EntryNamesDistinctIff | src/EpubDocument.php:56-62 | the planned entry names are pairwise distinct if and only if the section names are pairwise distinct and none is `toc` |
| EpubProperties.AppendExtendsLists | src/EpubDocument.php:43-46 | appending a section appends exactly its link, its manifest item, its spine idref and its content entry, leaving the rest unchanged |
| EpubProperties.AddSectionExtendsPlan | src/EpubDocument.php:43-46 | after `addSection` the planned writes gain one entry at the end, the new section's; `mimetype`, the container and the earlier content entries are unchanged, and the navigation list, manifest and spine each end with the new section |
| EpubProperties.AddSectionExtendsEntries | src/EpubDocument.php:43-46 | after `addSection` the planned writes gain one entry at the end, the new section's content document; `mimetype`, the container and the earlier content entries are unchanged |
| EpubProperties.AddSectionExtendsLists | src/EpubDocument.php:43-46 | after `addSection` the navigation list, the manifest and the spine each end with the new section's link, item and idref, the rest unchanged |
| EpubProperties.AddSections | src/EpubDocument.php:43-46 | a run of `addSection` calls appends the sections in call order, each with the name, title and content of its call |
| EpubProperties.InsertionOrderIsReadingOrder | src/EpubDocument.php:255-268 | for sections added to a new book, the spine is `toc` then the names in call order, and the navigation list links them in the same order |
| EpubProperties.TestBookEntries | tests/EpubDocumentTest.php:22-37 | the test's three-section book is written as exactly seven named entries in the stated order |
| EpubProperties.TestBookSpine | tests/EpubDocumentTest.php:22-37 | the test book's spine is `toc, section1, section2, section3` |

## Left out

- ZipArchive: opening, `addFromString`, `close` and their return values. The model produces the ordered list of writes; what the archive does with two writes of the same name is not modelled. The code ignores the results of `addFromString` and `close`, and so does the model.
- Compression: the code never chooses a compression method for `mimetype`, so nothing is claimed about how it is stored.
- XML serialization through DOMDocument and SimpleXMLElement, including the doctype, namespace attributes and the namespaced `addAttribute('version', …)` call at src/EpubDocument.php:133, which SimpleXMLElement rejects with a warning because the name has no prefix, so only line 135 adds `version`. Payloads are abstract trees.
- Entity handling of `createElement(name, value)` (src/EpubDocument.php:98, 172, 178, 195, 227, 231, 232, 234; the literals at 172 and 178 hold no `&`): DOM parses the value for entity references when it builds the node, so `&amp;` becomes `&` and a bare `&` raises "unterminated entity reference" and the text is cut short. The model keeps every such value as the string passed in.
- EpubDocument.PackageMetadata: its identifier, title, creator and modified strings are the values passed to `createElement`, not the text DOM stores after entity parsing.
- EpubDocument.NavLinks: each link text is the section title as passed to `createElement`, not the text DOM stores after entity parsing.
- EpubDocument.ContentEntry: the document title is the section title as passed to `createElement`, not the text DOM stores after entity parsing.
- Parsing of the section fragment by `appendXML`: reduced to the `wellFormed` parameter, with no warning modelled.
- The clock (`new DateTime('now')`) and its `Y-m-d\TH:i:s\Z` formatting, which writes local time followed by a literal `Z`: the formatted time is the `modified` parameter.
- `DIRECTORY_SEPARATOR`: the `separator` parameter.
- src/EpubAsset.php and src/EpubImage.php: getter-only records the document class never uses; there are no images, stylesheets or cover page in the modelled code.
- The tests' download of the external EPUB checker, file handling and zip extraction, and the run of that checker.
