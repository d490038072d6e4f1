/** The Word document as the form engine sees it through python-docx: the
    top-level paragraphs, the tables (rows of cells) and the elements met by
    walking the XML body, where a content control (`w:sdt`) carries a tag
    value and its text runs (`w:t`). Any part may be faulty: reading it
    raises, and the code around it skips it. */
module Documents {
  import opened Wrappers

  /** A paragraph whose `.text` can be read, or one whose `.text` raises. */
  datatype Paragraph = Para(text: string) | BrokenPara

  /** A table cell whose `.text` can be read, or one whose `.text` raises. */
  datatype DocCell = DocCell(text: string) | BrokenCell

  /** A table row whose `.cells` can be read, or one whose `.cells` raises. */
  datatype DocRow = DocRow(cells: seq<DocCell>) | BrokenRow

  /** A table whose `.rows` can be read, or one whose `.rows` raises. */
  datatype DocTable = DocTable(rows: seq<DocRow>) | BrokenTable

  /** An element of the body walk: a content control with the value of its
      `w:tag` (None when it has no tag or no value) and the texts of its
      runs; any other element; an element whose inspection raises. */
  datatype Element = Sdt(tag: Option<string>, runs: seq<string>) | Other | BrokenElement

  /** `doc.paragraphs`, `doc.tables` and `doc.element.body.iter()`; None when
      obtaining or walking that collection raises. */
  datatype Document = Document(
    paragraphs: Option<seq<Paragraph>>,
    tables: Option<seq<DocTable>>,
    body: Option<seq<Element>>)

  /** A template file: one python-docx cannot open, or an opened document
      together with whether saving it to a buffer succeeds. */
  datatype Template = Unreadable | Loaded(doc: Document, saves: bool)
}
