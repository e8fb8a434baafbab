// The library defaults of config/config.php that the layout code reads.
module Config {
  const PageSize: string := "A4"
  const PageOrientation: string := "P"
  const PageMarginLeft: real := 20.0
  const PageMarginTop: real := 10.0
  const PageMarginRight: real := 10.0
  const PageMarginBottom: real := 10.0

  const FrameHAlignment: string := "L"
  const FrameVAlignment: string := "T"
  const FrameMargin: real := 0.0

  const BoxBorderExtent: real := 0.0
  const BoxBorderColor: string := "#000000"
  const BoxBackgroundColor: string := "#FFFFFF"
  const BoxPadding: real := 0.0

  const ColumnPaddingTop: real := 0.1
  const ColumnPaddingLeft: real := 0.5
  const ColumnPaddingRight: real := 0.5
  const ColumnPaddingBottom: real := 0.1
  const ColumnMarginBottomSubtotal: real := 1.0
  const ColumnLineExtent: real := 0.0
  const ColumnLineHeaderExtent: real := 0.2
  const ColumnLineTotalExtent: real := 0.2

  const TextColor: string := "#000000"
  const TextBackgroundColor: string := "#FFFFFF"
  const TextFontSize: real := 9.0
  const DeltaHeading1: real := 9.0
  const DeltaHeading2: real := 6.0
  const DeltaHeading3: real := 3.0
  const DeltaHeading4: real := 1.0
  const DeltaTable: real := -1.0
  const DeltaSmall: real := -1.0
  const TextFontFamily: string := "Helvetica"
}
