/**
  One content document of a book: a name that serves both as manifest id and as
  file stem, a display title, and an XHTML fragment for the body.
 */
module EpubSection {

  /** The record is a value: nothing can change its three strings once it is built. */
  datatype Section = Section(sectionName: string, sectionTitle: string, content: string) {

    function GetSectionName(): string { sectionName }

    function GetSectionTitle(): string { sectionTitle }

    function GetContent(): string { content }
  }

  /** Builds a section. No string is rejected: empty names, dotted names and `toc` are all accepted. */
  function NewSection(sectionName: string, sectionTitle: string, content: string): (s: Section)
    ensures s.GetSectionName() == sectionName
    ensures s.GetSectionTitle() == sectionTitle
    ensures s.GetContent() == content
  {
    Section(sectionName, sectionTitle, content)
  }

  /** The three getters see everything a section holds: sections that agree on them are equal. */
  lemma GettersDetermineSection(s: Section, t: Section)
    ensures s == t <==>
      && s.GetSectionName() == t.GetSectionName()
      && s.GetSectionTitle() == t.GetSectionTitle()
      && s.GetContent() == t.GetContent()
  {
  }
}
