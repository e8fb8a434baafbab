// The page-format record (src/PageFormat.php). Its fluent setters are plain
// field updates, written as datatype updates `f.(marginTop := m)`.
module PageFormats {
  import Config

  datatype PageFormat = PageFormat(
    pageSize: string,
    pageOrientation: string,
    marginLeft: real,
    marginTop: real,
    marginRight: real,
    marginBottom: real,
    mirrorMargins: bool)

  /** `new PageFormat(...)`: the arguments are stored as given, without validation. */
  function NewPageFormat(pageSize: string, pageOrientation: string, marginLeft: real, marginTop: real,
                         marginRight: real, marginBottom: real, mirrorMargins: bool): (f: PageFormat)
    ensures f.pageSize == pageSize && f.pageOrientation == pageOrientation
    ensures f.marginLeft == marginLeft && f.marginTop == marginTop
    ensures f.marginRight == marginRight && f.marginBottom == marginBottom
    ensures f.mirrorMargins == mirrorMargins
  {
    PageFormat(pageSize, pageOrientation, marginLeft, marginTop, marginRight, marginBottom, mirrorMargins)
  }

  /** `new PageFormat()`: A4 portrait, margins 20/10/10/10, no mirroring. */
  const DefaultPageFormat: PageFormat :=
    NewPageFormat(Config.PageSize, Config.PageOrientation, Config.PageMarginLeft, Config.PageMarginTop,
                  Config.PageMarginRight, Config.PageMarginBottom, false)

  lemma DefaultPageFormatValues()
    ensures DefaultPageFormat == PageFormat("A4", "P", 20.0, 10.0, 10.0, 10.0, false)
  {
  }
}
