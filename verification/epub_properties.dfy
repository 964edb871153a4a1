/**
  Properties of the generated package: the archive entries, manifest, spine and
  navigation list agree with each other and with the sections in insertion order.
 */
module EpubProperties {
  import opened Text
  import opened EpubSection
  import opened EpubPayload
  import opened EpubDocument

  predicate SectionNamesDistinct(sections: seq<Section>)
  {
    forall i, j :: 0 <= i < j < |sections| ==> sections[i].GetSectionName() != sections[j].GetSectionName()
  }

  predicate NoSectionNamedToc(sections: seq<Section>)
  {
    forall i :: 0 <= i < |sections| ==> sections[i].GetSectionName() != TocId
  }

  predicate ItemIdsDistinct(items: seq<Item>)
  {
    forall i, j :: 0 <= i < j < |items| ==> items[i].id != items[j].id
  }

  predicate EntryNamesDistinct(entries: seq<Entry>)
  {
    forall i, j :: 0 <= i < j < |entries| ==> entries[i].name != entries[j].name
  }

  /** The package document written by a plan. */
  function PlannedPackage(d: Document, modified: string, wellFormed: string -> bool): (opf: Package)
    ensures opf == PackageEntry(d, modified).payload.opf
  {
    var es := Plan(d, modified, wellFormed);
    assert es[3] == PackageEntry(d, modified);
    es[3].payload.opf
  }

  /** The navigation document written by a plan. */
  function PlannedNav(d: Document, modified: string, wellFormed: string -> bool): (nav: Nav)
    ensures nav == TocEntry(d.sections).payload.nav
  {
    var es := Plan(d, modified, wellFormed);
    assert es[2] == TocEntry(d.sections);
    es[2].payload.nav
  }

  /** The first two entries never depend on the book: `mimetype` and the container pointer. */
  lemma FixedEntriesIndependentOfBook(
    d1: Document, modified1: string, wellFormed1: string -> bool,
    d2: Document, modified2: string, wellFormed2: string -> bool)
    ensures Plan(d1, modified1, wellFormed1)[0] == Plan(d2, modified2, wellFormed2)[0]
    ensures Plan(d1, modified1, wellFormed1)[1] == Plan(d2, modified2, wellFormed2)[1]
  {
    assert Plan(d1, modified1, wellFormed1)[0] == MimetypeEntry() == Plan(d2, modified2, wellFormed2)[0];
    assert Plan(d1, modified1, wellFormed1)[1] == ContainerEntry() == Plan(d2, modified2, wellFormed2)[1];
  }

  /** The container's root file is the entry the package document is written to, with the package media type. */
  lemma ContainerNamesPackage(d: Document, modified: string, wellFormed: string -> bool)
    ensures var es := Plan(d, modified, wellFormed);
      && es[1].payload.ContainerDoc? && es[3].payload.PackageDoc?
      && es[1].payload.container.rootPath == es[3].name
      && es[1].payload.container.mediaType == PackageMediaType
  {
    var es := Plan(d, modified, wellFormed);
    assert es[1] == ContainerEntry() && es[3] == PackageEntry(d, modified);
  }

  /** The spine lists exactly the manifest ids, in manifest order: `toc`, then the section names. */
  lemma SpineMatchesManifest(d: Document, modified: string, wellFormed: string -> bool)
    ensures var opf := PlannedPackage(d, modified, wellFormed);
      && |opf.spine| == |opf.manifest|
      && (forall i :: 0 <= i < |opf.spine| ==> opf.spine[i] == opf.manifest[i].id)
  {
    SpineFollowsManifest(d.sections);
  }

  /** The spine of a section list names the ids of its manifest, position by position. */
  lemma SpineFollowsManifest(sections: seq<Section>)
    ensures |Spine(sections)| == |Manifest(sections)|
    ensures forall i :: 0 <= i < |Spine(sections)| ==> Spine(sections)[i] == Manifest(sections)[i].id
  {
    var spine, manifest := Spine(sections), Manifest(sections);
    assert spine[0] == manifest[0].id;
    forall i | 1 <= i < |spine|
      ensures spine[i] == manifest[i].id
    {
      assert spine[(i - 1) + 1] == manifest[(i - 1) + 1].id;
    }
  }

  /** Every manifest href has an archive entry under the content root. */
  predicate HrefsHaveEntries(manifest: seq<Item>, es: seq<Entry>)
  {
    forall i :: 0 <= i < |manifest| ==> exists j :: 0 <= j < |es| && es[j].name == EntryName(manifest[i].href)
  }

  /** Every archive entry other than `mimetype`, the container and the package document is the entry of a manifest href. */
  predicate EntriesAreListed(es: seq<Entry>, manifest: seq<Item>)
  {
    forall j :: 0 <= j < |es| ==>
      || es[j].name in {MimetypeName, ContainerName, EntryName(PackageHref)}
      || exists i :: 0 <= i < |manifest| && es[j].name == EntryName(manifest[i].href)
  }

  /** The manifest and the archive entries list the same files, in both directions. */
  lemma ManifestMatchesEntries(d: Document, modified: string, wellFormed: string -> bool)
    ensures HrefsHaveEntries(PlannedPackage(d, modified, wellFormed).manifest, Plan(d, modified, wellFormed))
    ensures EntriesAreListed(Plan(d, modified, wellFormed), PlannedPackage(d, modified, wellFormed).manifest)
  {
    PlanLayout(d, modified, wellFormed);
    LayoutMatchesManifest(Plan(d, modified, wellFormed), d.sections);
  }

  /** In the layout, manifest item `i` names entry 2 (the navigation document) or entry `3 + i`. */
  lemma LayoutEntryOfItem(es: seq<Entry>, s: seq<Section>, i: int) returns (j: int)
    requires LayoutFollows(es, s)
    requires 0 <= i < |Manifest(s)|
    ensures 0 <= j < |es| && es[j].name == EntryName(Manifest(s)[i].href)
    ensures j == if i == 0 then 2 else 3 + i
  {
    var manifest := Manifest(s);
    if i == 0 {
      j := 2;
    } else {
      assert manifest[(i - 1) + 1].href == Href(s[i - 1].GetSectionName());
      assert es[4 + (i - 1)].name == EntryName(Href(s[i - 1].GetSectionName()));
      j := 3 + i;
    }
  }

  lemma LayoutMatchesManifest(es: seq<Entry>, s: seq<Section>)
    requires LayoutFollows(es, s)
    ensures HrefsHaveEntries(Manifest(s), es)
    ensures EntriesAreListed(es, Manifest(s))
  {
    var manifest := Manifest(s);
    forall i | 0 <= i < |manifest|
      ensures exists j :: 0 <= j < |es| && es[j].name == EntryName(manifest[i].href)
    {
      var j := LayoutEntryOfItem(es, s, i);
    }
    forall j | 0 <= j < |es| && j != 0 && j != 1 && j != 3
      ensures exists i :: 0 <= i < |manifest| && es[j].name == EntryName(manifest[i].href)
    {
      var i := if j == 2 then 0 else j - 3;
      var j' := LayoutEntryOfItem(es, s, i);
    }
  }

  /**
    The navigation list has one link per section in manifest order: link `i` points at
    the href of manifest item `i + 1`, and planned entry `4 + i` is written under that
    href as a content document titled by the link text.
   */
  lemma NavMatchesManifest(d: Document, modified: string, wellFormed: string -> bool)
    ensures var es := Plan(d, modified, wellFormed);
      var nav := PlannedNav(d, modified, wellFormed);
      var manifest := PlannedPackage(d, modified, wellFormed).manifest;
      && nav.navId == TocId && nav.epubType == TocId
      && |nav.links| + 1 == |manifest|
      && forall i :: 0 <= i < |nav.links| ==>
        && nav.links[i].href == manifest[i + 1].href
        && es[4 + i].name == EntryName(nav.links[i].href)
        && es[4 + i].payload.ContentDoc?
        && es[4 + i].payload.title == nav.links[i].text
  {
  }

  /**
    With distinct section names, none of them `toc`, planned entry `4 + i` is the only
    write under the href of link `i`, so the archive keeps exactly that document there.
   */
  lemma NavHrefHasOneEntry(d: Document, modified: string, wellFormed: string -> bool)
    requires SectionNamesDistinct(d.sections) && NoSectionNamedToc(d.sections)
    ensures var es := Plan(d, modified, wellFormed);
      var nav := PlannedNav(d, modified, wellFormed);
      forall i, j :: 0 <= i < |nav.links| && 0 <= j < |es| && es[j].name == EntryName(nav.links[i].href) ==> j == 4 + i
  {
    var es := Plan(d, modified, wellFormed);
    var nav := PlannedNav(d, modified, wellFormed);
    NavMatchesManifest(d, modified, wellFormed);
    EntryNamesDistinctIff(d, modified, wellFormed);
    LinkedEntriesAreUnique(es, nav.links);
  }

  /** In entries with distinct names, the entry `4 + i` named after link `i` is the only one with that name. */
  lemma LinkedEntriesAreUnique(es: seq<Entry>, links: seq<NavLink>)
    requires EntryNamesDistinct(es) && 4 + |links| <= |es|
    requires forall i :: 0 <= i < |links| ==> es[4 + i].name == EntryName(links[i].href)
    ensures forall i, j :: 0 <= i < |links| && 0 <= j < |es| && es[j].name == EntryName(links[i].href) ==> j == 4 + i
  {
    forall i, j | 0 <= i < |links| && 0 <= j < |es| && es[j].name == EntryName(links[i].href)
      ensures j == 4 + i
    {
      assert es[j].name == es[4 + i].name;
    }
  }

  /** `e` is the content document of section `s`: titled by it, with its fragment as body exactly when the fragment parses. */
  predicate DocumentOf(e: Entry, s: Section, wellFormed: string -> bool)
  {
    && e.payload.ContentDoc?
    && e.payload.title == s.GetSectionTitle()
    && (e.payload.body == Fragment(s.GetContent()) <==> wellFormed(s.GetContent()))
    && (!wellFormed(s.GetContent()) ==> e.payload.body == NoNodes)
  }

  /** The content entry of a section is that section's document. */
  lemma ContentEntryIsDocumentOf(s: Section, wellFormed: string -> bool)
    ensures DocumentOf(ContentEntry(s, wellFormed), s, wellFormed)
  {
  }

  /** Content entry `i` is the document of section `i`. */
  lemma ContentDocumentsFollowSections(d: Document, modified: string, wellFormed: string -> bool)
    ensures var es := Plan(d, modified, wellFormed);
      forall i :: 0 <= i < |d.sections| ==> DocumentOf(es[4 + i], d.sections[i], wellFormed)
  {
    var es := Plan(d, modified, wellFormed);
    ContentEntriesAreDocuments(es, d.sections, wellFormed);
  }

  /** Entries that are the content entries of `sections`, after four fixed ones, are their documents. */
  lemma ContentEntriesAreDocuments(es: seq<Entry>, sections: seq<Section>, wellFormed: string -> bool)
    requires |es| == 4 + |sections|
    requires forall i :: 0 <= i < |sections| ==> es[4 + i] == ContentEntry(sections[i], wellFormed)
    ensures forall i :: 0 <= i < |sections| ==> DocumentOf(es[4 + i], sections[i], wellFormed)
  {
    forall i | 0 <= i < |sections|
      ensures DocumentOf(es[4 + i], sections[i], wellFormed)
    {
      ContentEntryIsDocumentOf(sections[i], wellFormed);
    }
  }

  /** The names of the four fixed entries differ from each other. */
  lemma FixedNamesDistinct()
    ensures MimetypeName != ContainerName && MimetypeName != EntryName(Href(TocId))
    ensures MimetypeName != EntryName(PackageHref) && ContainerName != EntryName(Href(TocId))
    ensures ContainerName != EntryName(PackageHref) && EntryName(Href(TocId)) != EntryName(PackageHref)
  {
    assert MimetypeName[0] == 'm' && ContainerName[0] == 'M';
    assert EntryName(Href(TocId))[0] == 'E' && EntryName(PackageHref)[0] == 'E';
    assert EntryName(Href(TocId))[5] == 't' && EntryName(PackageHref)[5] == 'p';
  }

  /** A content entry name never equals the `mimetype`, container or package entry names. */
  lemma ContentNameIsNotFixed(n: string)
    ensures EntryName(Href(n)) != MimetypeName
    ensures EntryName(Href(n)) != ContainerName
    ensures EntryName(Href(n)) != EntryName(PackageHref)
  {
    var x := EntryName(Href(n));
    assert x == ContentRoot + (n + XhtmlSuffix);
    assert x[0] == 'E';
    LastOfAppend(ContentRoot + n, XhtmlSuffix);
    assert x == (ContentRoot + n) + XhtmlSuffix;
    assert x[|x| - 1] == 'l';
    assert EntryName(PackageHref)[|EntryName(PackageHref)| - 1] == 'f';
  }

  /** Content entry names determine the section name they were built from. */
  lemma ContentNameInjective(a: string, b: string)
    ensures EntryName(Href(a)) == EntryName(Href(b)) <==> a == b
  {
    if EntryName(Href(a)) == EntryName(Href(b)) {
      assert EntryName(Href(a)) == ContentRoot + a + XhtmlSuffix;
      assert EntryName(Href(b)) == ContentRoot + b + XhtmlSuffix;
      WrapInjective(ContentRoot, a, b, XhtmlSuffix);
    }
  }

  /**
    Manifest ids are pairwise distinct exactly when the section names are and none
    of them is `toc`. Nothing checks this when sections are added.
   */
  lemma ManifestIdsDistinctIff(d: Document, modified: string, wellFormed: string -> bool)
    ensures ItemIdsDistinct(PlannedPackage(d, modified, wellFormed).manifest)
      <==> SectionNamesDistinct(d.sections) && NoSectionNamedToc(d.sections)
  {
    ManifestIdsDistinctIffNames(d.sections);
  }

  lemma ManifestIdsDistinctIffNames(s: seq<Section>)
    ensures ItemIdsDistinct(Manifest(s)) <==> SectionNamesDistinct(s) && NoSectionNamedToc(s)
  {
    if ItemIdsDistinct(Manifest(s)) {
      DistinctIdsGiveDistinctNames(s);
    }
    if SectionNamesDistinct(s) && NoSectionNamedToc(s) {
      DistinctNamesGiveDistinctIds(s);
    }
  }

  lemma DistinctIdsGiveDistinctNames(s: seq<Section>)
    requires ItemIdsDistinct(Manifest(s))
    ensures SectionNamesDistinct(s) && NoSectionNamedToc(s)
  {
    var m := Manifest(s);
    forall i, j | 0 <= i < j < |s|
      ensures s[i].GetSectionName() != s[j].GetSectionName()
    {
      assert m[i + 1].id != m[j + 1].id;
    }
    forall i | 0 <= i < |s|
      ensures s[i].GetSectionName() != TocId
    {
      assert m[0].id != m[i + 1].id;
    }
  }

  lemma DistinctNamesGiveDistinctIds(s: seq<Section>)
    requires SectionNamesDistinct(s) && NoSectionNamedToc(s)
    ensures ItemIdsDistinct(Manifest(s))
  {
    var m := Manifest(s);
    forall i, j | 0 <= i < j < |m|
      ensures m[i].id != m[j].id
    {
      assert m[(j - 1) + 1].id == s[j - 1].GetSectionName();
      if i > 0 {
        assert m[(i - 1) + 1].id == s[i - 1].GetSectionName();
      }
    }
  }

  /** The archive layout: the four fixed names, then one content name per section in section order. */
  predicate LayoutFollows(es: seq<Entry>, s: seq<Section>)
  {
    && |es| == 4 + |s|
    && es[0].name == MimetypeName && es[1].name == ContainerName
    && es[2].name == EntryName(Href(TocId)) && es[3].name == EntryName(PackageHref)
    && forall i :: 0 <= i < |s| ==> es[4 + i].name == EntryName(Href(s[i].GetSectionName()))
  }

  /**
    The planned entry names, in order, are `mimetype`, `META-INF/container.xml`,
    `EPUB/toc.xhtml`, `EPUB/package.opf`, then `EPUB/<name>.xhtml` per section in insertion order.
   */
  lemma PlanLayout(d: Document, modified: string, wellFormed: string -> bool)
    ensures LayoutFollows(Plan(d, modified, wellFormed), d.sections)
  {
    var es := Plan(d, modified, wellFormed);
    forall i | 0 <= i < |d.sections|
      ensures es[4 + i].name == EntryName(Href(d.sections[i].GetSectionName()))
    {
      assert es[4 + i] == ContentEntry(d.sections[i], wellFormed);
    }
  }

  /** Two entries at positions `i < j` of that layout have distinct names, given distinct section names and no `toc` among them. */
  lemma LayoutNamesDiffer(es: seq<Entry>, s: seq<Section>, i: int, j: int)
    requires LayoutFollows(es, s)
    requires SectionNamesDistinct(s) && NoSectionNamedToc(s)
    requires 0 <= i < j < |es|
    ensures es[i].name != es[j].name
  {
    if j < 4 {
      FixedNamesDistinct();
    } else {
      var nj := s[j - 4].GetSectionName();
      assert es[4 + (j - 4)].name == EntryName(Href(nj));
      ContentNameIsNotFixed(nj);
      if i == 2 {
        ContentNameInjective(nj, TocId);
      } else if i >= 4 {
        var ni := s[i - 4].GetSectionName();
        assert es[4 + (i - 4)].name == EntryName(Href(ni));
        ContentNameInjective(ni, nj);
      }
    }
  }

  /** For any entries laid out after sections, names are distinct exactly when section names are and none is `toc`. */
  lemma LayoutNamesDistinctIff(es: seq<Entry>, s: seq<Section>)
    requires LayoutFollows(es, s)
    ensures EntryNamesDistinct(es) <==> SectionNamesDistinct(s) && NoSectionNamedToc(s)
  {
    if EntryNamesDistinct(es) {
      forall i, j | 0 <= i < j < |s|
        ensures s[i].GetSectionName() != s[j].GetSectionName()
      {
        assert es[4 + i].name != es[4 + j].name;
      }
      forall i | 0 <= i < |s|
        ensures s[i].GetSectionName() != TocId
      {
        assert es[2].name != es[4 + i].name;
      }
    }
    if SectionNamesDistinct(s) && NoSectionNamedToc(s) {
      forall i, j | 0 <= i < j < |es|
        ensures es[i].name != es[j].name
      {
        LayoutNamesDiffer(es, s, i, j);
      }
    }
  }

  /**
    Entry names are pairwise distinct exactly when the section names are and none of
    them is `toc`; otherwise a later entry has the name of an earlier one.
   */
  lemma EntryNamesDistinctIff(d: Document, modified: string, wellFormed: string -> bool)
    ensures EntryNamesDistinct(Plan(d, modified, wellFormed))
      <==> SectionNamesDistinct(d.sections) && NoSectionNamedToc(d.sections)
  {
    PlanLayout(d, modified, wellFormed);
    LayoutNamesDistinctIff(Plan(d, modified, wellFormed), d.sections);
  }

  /** Appending one section appends exactly one link, one manifest item, one spine idref and one content entry. */
  lemma AppendExtendsLists(s: seq<Section>, x: Section, wellFormed: string -> bool)
    ensures NavLinks(s + [x]) == NavLinks(s) + [NavLink(Href(x.GetSectionName()), x.GetSectionTitle())]
    ensures Manifest(s + [x]) == Manifest(s) + [Item(x.GetSectionName(), Href(x.GetSectionName()), XhtmlMediaType, None)]
    ensures Spine(s + [x]) == Spine(s) + [x.GetSectionName()]
    ensures ContentEntries(s + [x], wellFormed) == ContentEntries(s, wellFormed) + [ContentEntry(x, wellFormed)]
  {
    assert (s + [x])[..|s|] == s;
    AppendExtendsManifest(s, x);
    AppendExtendsSpine(s, x);
  }

  lemma AppendExtendsManifest(s: seq<Section>, x: Section)
    ensures Manifest(s + [x]) == Manifest(s) + [Item(x.GetSectionName(), Href(x.GetSectionName()), XhtmlMediaType, None)]
  {
    assert (s + [x])[..|s|] == s;
    assert SectionItems(s + [x]) == SectionItems(s) + [Item(x.GetSectionName(), Href(x.GetSectionName()), XhtmlMediaType, None)];
  }

  lemma AppendExtendsSpine(s: seq<Section>, x: Section)
    ensures Spine(s + [x]) == Spine(s) + [x.GetSectionName()]
  {
    assert (s + [x])[..|s|] == s;
    assert SectionRefs(s + [x]) == SectionRefs(s) + [x.GetSectionName()];
  }

  /**
    After `addSection`, the planned writes keep `mimetype`, the container and every
    earlier content entry, and gain exactly one content entry at the end; the navigation
    list, manifest and spine each gain the new section at their end. A write to a name
    already taken replaces that archive entry, so the archive itself need not grow.
   */
  lemma AddSectionExtendsPlan(
    d: Document, sectionName: string, sectionTitle: string, content: string,
    modified: string, wellFormed: string -> bool)
    ensures var d' := AddSection(d, sectionName, sectionTitle, content);
      var es := Plan(d, modified, wellFormed);
      var es' := Plan(d', modified, wellFormed);
      && |es'| == |es| + 1
      && es'[0] == es[0] && es'[1] == es[1]
      && (forall k :: 4 <= k < |es| ==> es'[k] == es[k])
      && es'[|es|] == ContentEntry(NewSection(sectionName, sectionTitle, content), wellFormed)
      && NavLinks(d'.sections) == NavLinks(d.sections) + [NavLink(Href(sectionName), sectionTitle)]
      && Manifest(d'.sections) == Manifest(d.sections) + [Item(sectionName, Href(sectionName), XhtmlMediaType, None)]
      && Spine(d'.sections) == Spine(d.sections) + [sectionName]
  {
    AddSectionExtendsEntries(d, sectionName, sectionTitle, content, modified, wellFormed);
    AddSectionExtendsLists(d, sectionName, sectionTitle, content);
  }

  /**
    After `addSection` the planned writes keep `mimetype`, the container and the earlier
    content entries, and gain the new section's content entry at the end.
   */
  lemma AddSectionExtendsEntries(
    d: Document, sectionName: string, sectionTitle: string, content: string,
    modified: string, wellFormed: string -> bool)
    ensures var d' := AddSection(d, sectionName, sectionTitle, content);
      var es := Plan(d, modified, wellFormed);
      var es' := Plan(d', modified, wellFormed);
      && |es'| == |es| + 1
      && es'[0] == es[0] && es'[1] == es[1]
      && (forall k :: 4 <= k < |es| ==> es'[k] == es[k])
      && es'[|es|] == ContentEntry(NewSection(sectionName, sectionTitle, content), wellFormed)
  {
    var x := NewSection(sectionName, sectionTitle, content);
    var d' := AddSection(d, sectionName, sectionTitle, content);
    assert d'.sections == d.sections + [x];
    var es := Plan(d, modified, wellFormed);
    var es' := Plan(d', modified, wellFormed);
    forall k | 4 <= k < |es|
      ensures es'[k] == es[k]
    {
      assert es'[4 + (k - 4)] == ContentEntry(d'.sections[k - 4], wellFormed);
      assert es[4 + (k - 4)] == ContentEntry(d.sections[k - 4], wellFormed);
    }
    assert es'[4 + |d.sections|] == ContentEntry(d'.sections[|d.sections|], wellFormed);
  }

  /** After `addSection` the navigation list, manifest and spine each end with the new section. */
  lemma AddSectionExtendsLists(d: Document, sectionName: string, sectionTitle: string, content: string)
    ensures var d' := AddSection(d, sectionName, sectionTitle, content);
      && NavLinks(d'.sections) == NavLinks(d.sections) + [NavLink(Href(sectionName), sectionTitle)]
      && Manifest(d'.sections) == Manifest(d.sections) + [Item(sectionName, Href(sectionName), XhtmlMediaType, None)]
      && Spine(d'.sections) == Spine(d.sections) + [sectionName]
  {
    var x := NewSection(sectionName, sectionTitle, content);
    var d' := AddSection(d, sectionName, sectionTitle, content);
    assert d'.sections == d.sections + [x];
    assert d'.sections[..|d.sections|] == d.sections;
    AppendExtendsManifest(d.sections, x);
    AppendExtendsSpine(d.sections, x);
  }

  /** A caller's run of `addSection` calls, each given as (name, title, content), applied in order. */
  function AddSections(d: Document, calls: seq<(string, string, string)>): (d': Document)
    ensures |d'.sections| == |d.sections| + |calls|
    ensures d'.sections[..|d.sections|] == d.sections
    ensures forall i :: 0 <= i < |calls| ==>
      && d'.sections[|d.sections| + i].GetSectionName() == calls[i].0
      && d'.sections[|d.sections| + i].GetSectionTitle() == calls[i].1
      && d'.sections[|d.sections| + i].GetContent() == calls[i].2
    ensures d'.name == d.name && d'.author == d.author && d'.identifier == d.identifier && d'.path == d.path
  {
    if calls == [] then d
    else
      var last := calls[|calls| - 1];
      AddSection(AddSections(d, calls[..|calls| - 1]), last.0, last.1, last.2)
  }

  /**
    Sections added one by one to a new book appear in the spine after `toc` and in the
    navigation list in the order they were added.
   */
  lemma InsertionOrderIsReadingOrder(
    name: string, author: string, identifier: string, path: string,
    calls: seq<(string, string, string)>, modified: string, wellFormed: string -> bool)
    ensures var d := AddSections(NewDocument(name, author, identifier, path), calls);
      var spine := PlannedPackage(d, modified, wellFormed).spine;
      var links := PlannedNav(d, modified, wellFormed).links;
      && |spine| == |calls| + 1 && spine[0] == TocId
      && |links| == |calls|
      && forall i :: 0 <= i < |calls| ==>
        && spine[i + 1] == calls[i].0
        && links[i] == NavLink(Href(calls[i].0), calls[i].1)
  {
    var d := AddSections(NewDocument(name, author, identifier, path), calls);
    forall i | 0 <= i < |calls|
      ensures d.sections[i].GetSectionName() == calls[i].0 && d.sections[i].GetSectionTitle() == calls[i].1
    {
      assert d.sections[0 + i] == d.sections[i];
    }
  }

  /** The book of the repository's own generation test: three sections added to a book named `test`. */
  function TestBook(path: string, content: string): (d: Document)
    ensures |d.sections| == 3
    ensures d.sections[0].GetSectionName() == "section1" && d.sections[0].GetSectionTitle() == "Section 1"
    ensures d.sections[1].GetSectionName() == "section2" && d.sections[1].GetSectionTitle() == "Section 2"
    ensures d.sections[2].GetSectionName() == "section3" && d.sections[2].GetSectionTitle() == "Section 3"
  {
    var d0 := NewDocument("test", "phpunit", "unique-identifier", path);
    AddSection(AddSection(AddSection(d0, "section1", "Section 1", content), "section2", "Section 2", content),
      "section3", "Section 3", content)
  }

  /** The test book is written as seven entries, in this order. */
  lemma TestBookEntries(path: string, content: string, modified: string, wellFormed: string -> bool)
    ensures var es := Plan(TestBook(path, content), modified, wellFormed);
      && |es| == 7
      && es[0].name == "mimetype" && es[1].name == "META-INF/container.xml"
      && es[2].name == "EPUB/toc.xhtml" && es[3].name == "EPUB/package.opf"
      && es[4].name == EntryName(Href("section1")) && es[5].name == EntryName(Href("section2"))
      && es[6].name == EntryName(Href("section3"))
  {
    var d := TestBook(path, content);
    var es := Plan(d, modified, wellFormed);
    PlanLayout(d, modified, wellFormed);
    SpelledOut();
    assert es[4 + 0].name == EntryName(Href("section1"));
    assert es[4 + 1].name == EntryName(Href("section2"));
    assert es[4 + 2].name == EntryName(Href("section3"));
  }

  /** The test book's spine reads `toc`, then the three sections in the order they were added. */
  lemma TestBookSpine(path: string, content: string, modified: string, wellFormed: string -> bool)
    ensures PlannedPackage(TestBook(path, content), modified, wellFormed).spine
      == ["toc", "section1", "section2", "section3"]
  {
    var spine := Spine(TestBook(path, content).sections);
    assert spine[0 + 1] == "section1" && spine[1 + 1] == "section2" && spine[2 + 1] == "section3";
  }
}
