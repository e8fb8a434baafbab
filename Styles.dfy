// Text styles (src/TextStyle.php) and the named style registry
// (src/TextStyles.php). A style inherits every attribute it has not set
// from its base style; the base is fixed at construction, so the chain of
// bases is finite and the lookups terminate. The registry, a static array
// in the library, is an explicit object here.
module Styles {
  import opened Wrappers
  import Config

  class TextStyle {
    var name: string
    /** The base ("default") style; only the constructor sets it. */
    const base: TextStyle?
    /** Length of the base chain: 0 for a root style, one more than the base's otherwise. */
    const depth: nat

    var bold: bool
    var boldSet: bool
    var italic: bool
    var italicSet: bool
    var underline: bool
    var underlineSet: bool
    var size: real
    var sizeSet: bool
    var sizeDelta: real
    var fontFamily: string
    var fontFamilySet: bool
    var textColor: string
    var textColorSet: bool
    var backgroundColor: string
    var backgroundColorSet: bool

    /** The base chain is well formed: every base is strictly shallower. */
    ghost predicate Valid()
      decreases depth
    {
      (base == null ==> depth == 0)
      && (base != null ==> Linked() && base.Valid())
    }

    /** The base is there and shallower, so a lookup may descend into it.
        Every constructed style with a base satisfies it (see Valid). */
    predicate Linked()
    {
      base != null && base.depth < depth
    }

    /** This style and the styles of its base chain. */
    ghost function Chain(): set<TextStyle>
      decreases depth
    {
      {this} + if Linked() then base.Chain() else {}
    }

    constructor (name: string, base: TextStyle?)
      requires base != null ==> base.Valid()
      ensures Valid() && fresh(this)
      ensures this.name == name && this.base == base
      ensures Chain() == {this} + (if base == null then {} else base.Chain())
      ensures !boldSet && !italicSet && !underlineSet && !sizeSet && !fontFamilySet
      ensures !textColorSet && !backgroundColorSet && sizeDelta == 0.0
      ensures !bold && !italic && !underline
      ensures size == Config.TextFontSize && fontFamily == Config.TextFontFamily
      ensures textColor == Config.TextColor && backgroundColor == Config.TextBackgroundColor
    {
      this.name := name;
      this.base := base;
      depth := if base == null then 0 else base.depth + 1;
      bold, italic, underline := false, false, false;
      sizeDelta := 0.0;
      size := Config.TextFontSize;
      fontFamily := Config.TextFontFamily;
      textColor := Config.TextColor;
      backgroundColor := Config.TextBackgroundColor;
      boldSet, italicSet, underlineSet, sizeSet := false, false, false, false;
      fontFamilySet, textColorSet, backgroundColorSet := false, false, false;
      new;
      ResetToDefault();
    }

    /** Clear every set-flag and the size delta, but only for a style that has a base. */
    method ResetToDefault()
      modifies this
      ensures base != null ==>
        !boldSet && !italicSet && !underlineSet && !sizeSet && !fontFamilySet
        && !textColorSet && !backgroundColorSet && sizeDelta == 0.0
      ensures base == null ==>
        boldSet == old(boldSet) && italicSet == old(italicSet) && underlineSet == old(underlineSet)
        && sizeSet == old(sizeSet) && fontFamilySet == old(fontFamilySet) && textColorSet == old(textColorSet)
        && backgroundColorSet == old(backgroundColorSet) && sizeDelta == old(sizeDelta)
      ensures name == old(name) && bold == old(bold) && italic == old(italic) && underline == old(underline)
      ensures size == old(size) && fontFamily == old(fontFamily)
      ensures textColor == old(textColor) && backgroundColor == old(backgroundColor)
    {
      if base != null {
        boldSet, italicSet, underlineSet, sizeSet := false, false, false, false;
        sizeDelta := 0.0;
        fontFamilySet, textColorSet, backgroundColorSet := false, false, false;
      }
    }

    function IsBold(): bool
      reads Chain()
      decreases depth
    {
      if boldSet then bold else if Linked() then base.IsBold() else false
    }

    function IsItalic(): bool
      reads Chain()
      decreases depth
    {
      if italicSet then italic else if Linked() then base.IsItalic() else false
    }

    function IsUnderline(): bool
      reads Chain()
      decreases depth
    {
      if underlineSet then underline else if Linked() then base.IsUnderline() else false
    }

    /** The local size if set, else the base's size plus the delta, else 9.0 plus the delta. */
    function GetSize(): real
      reads Chain()
      decreases depth
    {
      if sizeSet then size
      else if Linked() then base.GetSize() + sizeDelta
      else Config.TextFontSize + sizeDelta
    }

    function GetFontFamily(): string
      reads Chain()
      decreases depth
    {
      if fontFamilySet then fontFamily
      else if Linked() then base.GetFontFamily()
      else Config.TextFontFamily
    }

    function GetTextColor(): string
      reads Chain()
      decreases depth
    {
      if textColorSet then textColor
      else if Linked() then base.GetTextColor()
      else "#000000"
    }

    function GetBackgroundColor(): string
      reads Chain()
      decreases depth
    {
      if backgroundColorSet then backgroundColor
      else if Linked() then base.GetBackgroundColor()
      else "#FFFFFF"
    }

    /** A style allocated before is allocated with its whole base chain. */
    twostate lemma ChainAllocated()
      ensures old(allocated(Chain()))
      decreases depth
    {
      if Linked() {
        base.ChainAllocated();
      }
    }

    /** What a style resolves to depends on the fields of its base chain
        only: while they stay, every lookup gives what it gave. */
    twostate lemma ResolvedUnchanged()
      requires old(allocated(Chain())) && unchanged(Chain())
      ensures IsBold() == old(IsBold()) && IsItalic() == old(IsItalic()) && IsUnderline() == old(IsUnderline())
      ensures GetSize() == old(GetSize()) && GetFontFamily() == old(GetFontFamily())
      ensures GetTextColor() == old(GetTextColor()) && GetBackgroundColor() == old(GetBackgroundColor())
      decreases depth
    {
      if Linked() {
        base.ResolvedUnchanged();
      }
    }

    method SetBold(b: bool)
      modifies this
      ensures boldSet && bold == b
      ensures IsBold() == b
      ensures italicSet == old(italicSet) && italic == old(italic) && underlineSet == old(underlineSet)
      ensures underline == old(underline) && sizeSet == old(sizeSet) && size == old(size)
      ensures sizeDelta == old(sizeDelta) && fontFamilySet == old(fontFamilySet) && fontFamily == old(fontFamily)
      ensures textColorSet == old(textColorSet) && textColor == old(textColor)
      ensures backgroundColorSet == old(backgroundColorSet) && backgroundColor == old(backgroundColor)
      ensures name == old(name)
    {
      boldSet := true;
      bold := b;
    }

    method SetItalic(b: bool)
      modifies this
      ensures italicSet && italic == b
      ensures IsItalic() == b
      ensures boldSet == old(boldSet) && bold == old(bold) && underlineSet == old(underlineSet)
      ensures underline == old(underline) && sizeSet == old(sizeSet) && size == old(size)
      ensures sizeDelta == old(sizeDelta) && fontFamilySet == old(fontFamilySet) && fontFamily == old(fontFamily)
      ensures textColorSet == old(textColorSet) && textColor == old(textColor)
      ensures backgroundColorSet == old(backgroundColorSet) && backgroundColor == old(backgroundColor)
      ensures name == old(name)
    {
      italicSet := true;
      italic := b;
    }

    method SetUnderline(b: bool)
      modifies this
      ensures underlineSet && underline == b
      ensures IsUnderline() == b
      ensures boldSet == old(boldSet) && bold == old(bold) && italicSet == old(italicSet)
      ensures italic == old(italic) && sizeSet == old(sizeSet) && size == old(size)
      ensures sizeDelta == old(sizeDelta) && fontFamilySet == old(fontFamilySet) && fontFamily == old(fontFamily)
      ensures textColorSet == old(textColorSet) && textColor == old(textColor)
      ensures backgroundColorSet == old(backgroundColorSet) && backgroundColor == old(backgroundColor)
      ensures name == old(name)
    {
      underlineSet := true;
      underline := b;
    }

    method SetSize(s: real)
      modifies this
      ensures sizeSet && size == s
      ensures GetSize() == s
      ensures boldSet == old(boldSet) && bold == old(bold) && italicSet == old(italicSet)
      ensures italic == old(italic) && underlineSet == old(underlineSet) && underline == old(underline)
      ensures sizeDelta == old(sizeDelta) && fontFamilySet == old(fontFamilySet) && fontFamily == old(fontFamily)
      ensures textColorSet == old(textColorSet) && textColor == old(textColor)
      ensures backgroundColorSet == old(backgroundColorSet) && backgroundColor == old(backgroundColor)
      ensures name == old(name)
    {
      sizeSet := true;
      size := s;
    }

    /** Unlike the other setters, the delta has no set-flag. */
    method SetSizeDelta(d: real)
      modifies this
      ensures sizeDelta == d
      ensures boldSet == old(boldSet) && bold == old(bold) && italicSet == old(italicSet)
      ensures italic == old(italic) && underlineSet == old(underlineSet) && underline == old(underline)
      ensures sizeSet == old(sizeSet) && size == old(size)
      ensures fontFamilySet == old(fontFamilySet) && fontFamily == old(fontFamily)
      ensures textColorSet == old(textColorSet) && textColor == old(textColor)
      ensures backgroundColorSet == old(backgroundColorSet) && backgroundColor == old(backgroundColor)
      ensures name == old(name)
    {
      sizeDelta := d;
    }

    method SetFontFamily(f: string)
      modifies this
      ensures fontFamilySet && fontFamily == f
      ensures GetFontFamily() == f
      ensures boldSet == old(boldSet) && bold == old(bold) && italicSet == old(italicSet)
      ensures italic == old(italic) && underlineSet == old(underlineSet) && underline == old(underline)
      ensures sizeSet == old(sizeSet) && size == old(size) && sizeDelta == old(sizeDelta)
      ensures textColorSet == old(textColorSet) && textColor == old(textColor)
      ensures backgroundColorSet == old(backgroundColorSet) && backgroundColor == old(backgroundColor)
      ensures name == old(name)
    {
      fontFamilySet := true;
      fontFamily := f;
    }

    method SetTextColor(c: string)
      modifies this
      ensures textColorSet && textColor == c
      ensures GetTextColor() == c
      ensures boldSet == old(boldSet) && bold == old(bold) && italicSet == old(italicSet)
      ensures italic == old(italic) && underlineSet == old(underlineSet) && underline == old(underline)
      ensures sizeSet == old(sizeSet) && size == old(size) && sizeDelta == old(sizeDelta)
      ensures fontFamilySet == old(fontFamilySet) && fontFamily == old(fontFamily)
      ensures backgroundColorSet == old(backgroundColorSet) && backgroundColor == old(backgroundColor)
      ensures name == old(name)
    {
      textColorSet := true;
      textColor := c;
    }

    method SetBackgroundColor(c: string)
      modifies this
      ensures backgroundColorSet && backgroundColor == c
      ensures GetBackgroundColor() == c
      ensures boldSet == old(boldSet) && bold == old(bold) && italicSet == old(italicSet)
      ensures italic == old(italic) && underlineSet == old(underlineSet) && underline == old(underline)
      ensures sizeSet == old(sizeSet) && size == old(size) && sizeDelta == old(sizeDelta)
      ensures fontFamilySet == old(fontFamilySet) && fontFamily == old(fontFamily)
      ensures textColorSet == old(textColorSet) && textColor == old(textColor)
      ensures name == old(name)
    {
      backgroundColorSet := true;
      backgroundColor := c;
    }
  }

  /** A well-formed style with a base looks up every attribute it has not
      set in its base, at the time of the lookup: changing the base changes
      every derived style that has not overridden the attribute. */
  lemma Inheritance(s: TextStyle)
    requires s.Valid() && s.base != null
    ensures !s.boldSet ==> s.IsBold() == s.base.IsBold()
    ensures !s.italicSet ==> s.IsItalic() == s.base.IsItalic()
    ensures !s.underlineSet ==> s.IsUnderline() == s.base.IsUnderline()
    ensures !s.sizeSet ==> s.GetSize() == s.base.GetSize() + s.sizeDelta
    ensures !s.fontFamilySet ==> s.GetFontFamily() == s.base.GetFontFamily()
    ensures !s.textColorSet ==> s.GetTextColor() == s.base.GetTextColor()
    ensures !s.backgroundColorSet ==> s.GetBackgroundColor() == s.base.GetBackgroundColor()
  {
  }

  /** A root style that sets nothing has the built-in defaults. */
  lemma RootDefaults(s: TextStyle)
    requires s.Valid() && s.base == null
    ensures !s.boldSet ==> !s.IsBold()
    ensures !s.italicSet ==> !s.IsItalic()
    ensures !s.underlineSet ==> !s.IsUnderline()
    ensures !s.sizeSet ==> s.GetSize() == 9.0 + s.sizeDelta
    ensures !s.fontFamilySet ==> s.GetFontFamily() == "Helvetica"
    ensures !s.textColorSet ==> s.GetTextColor() == "#000000"
    ensures !s.backgroundColorSet ==> s.GetBackgroundColor() == "#FFFFFF"
  {
  }

  // -----------------------------------------------------------------------
  // The registry

  const Normal: string := "Normal"
  const SmallNormal: string := "SmallNormal"
  const Heading1: string := "Heading1"
  const Heading2: string := "Heading2"
  const Heading3: string := "Heading3"
  const Heading4: string := "Heading4"
  const Bold: string := "Bold"
  const SmallBold: string := "SmallBold"
  const Italic: string := "Italic"
  const Underline: string := "Underline"
  const Footer: string := "Footer"
  const Header: string := "Header"
  const TableHeader: string := "TableHeader"
  const TableRow: string := "TableRow"
  const TableSubTotal: string := "TableSubTotal"
  const TableTotal: string := "TableTotal"

  /** How a predefined style differs from Normal: size delta, bold, italic, underline. */
  datatype Variation = Variation(delta: real, bold: bool, italic: bool, underline: bool)

  /** A style derived from `normal` with exactly the variation's flags set. */
  ghost predicate HasVariation(s: TextStyle, normal: TextStyle, v: Variation)
    reads s
  {
    s.base == normal && s.sizeDelta == v.delta
    && s.boldSet == v.bold && (v.bold ==> s.bold)
    && s.italicSet == v.italic && (v.italic ==> s.italic)
    && s.underlineSet == v.underline && (v.underline ==> s.underline)
    && !s.sizeSet && !s.fontFamilySet && !s.textColorSet && !s.backgroundColorSet
  }

  /** Normal as resetStyles leaves it: Helvetica 9, plain, black on white, all set explicitly. */
  ghost predicate IsNormal(s: TextStyle)
    reads s
  {
    s.base == null && s.Valid()
    && s.fontFamilySet && s.fontFamily == "Helvetica" && s.sizeSet && s.size == 9.0
    && s.boldSet && !s.bold && s.italicSet && !s.italic && s.underlineSet && !s.underline
    && s.textColorSet && s.textColor == "#000000" && s.backgroundColorSet && s.backgroundColor == "#FFFFFF"
  }

  class TextStyles {
    var styles: map<string, TextStyle>
    /** isset(self::$styles): false until resetStyles has run once. */
    var initialized: bool

    ghost predicate Valid()
      reads this
    {
      (forall n :: n in styles ==> styles[n].Valid())
      && (initialized ==> Normal in styles)
    }

    constructor ()
      ensures Valid() && !initialized && styles == map[]
    {
      styles := map[];
      initialized := false;
    }

    /** The registered style of that name, or a new style on `baseStyle`
        registered under it. Fails while the registry is uninitialised. */
    method AddTextStyle(name: string, baseStyle: TextStyle) returns (r: Result<TextStyle>)
      requires Valid() && baseStyle.Valid()
      modifies this
      ensures Valid() && initialized == old(initialized)
      ensures !old(initialized) ==> r == Err(StylesNotInitialized) && styles == old(styles)
      ensures old(initialized) && name in old(styles) ==> r == Ok(old(styles)[name]) && styles == old(styles)
      ensures old(initialized) && name !in old(styles) ==>
        r.Ok? && fresh(r.value) && r.value.name == name && HasVariation(r.value, baseStyle, Variation(0.0, false, false, false))
        && styles == old(styles)[name := r.value]
    {
      if !initialized {
        return Err(StylesNotInitialized);
      }
      if name !in styles {
        var ts := new TextStyle(name, baseStyle);
        styles := styles[name := ts];
        r := Ok(ts);
      } else {
        r := Ok(styles[name]);
      }
    }

    /** Initialise on first use; an unknown name is registered on Normal,
        so later calls return the same style. */
    method GetTextStyle(name: string) returns (ts: TextStyle)
      requires Valid()
      modifies this
      ensures Valid() && initialized && ts.Valid() && name in styles && styles[name] == ts
      ensures old(initialized) && name in old(styles) ==> ts == old(styles)[name] && styles == old(styles)
      ensures old(initialized) && name !in old(styles) ==>
        fresh(ts) && ts.base == old(styles)[Normal] && styles == old(styles)[name := ts]
      ensures !old(initialized) ==>
        Predefined(styles) && (forall n :: n in styles <==> n == Normal || n in DerivedNames || n == name)
        && (forall n :: n in styles ==> fresh(styles[n]))
      ensures !old(initialized) && name == Normal ==> IsNormal(ts)
      ensures !old(initialized) && name in DerivedNames ==> HasVariation(ts, styles[Normal], VariationOf(name))
      ensures !old(initialized) && name != Normal && name !in DerivedNames ==>
        ts.name == name && HasVariation(ts, styles[Normal], Variation(0.0, false, false, false))
    {
      if !initialized {
        ResetStyles();
      }
      if name !in styles {
        var r := AddTextStyle(name, styles[Normal]);
        ts := r.value;
      } else {
        ts := styles[name];
      }
      assert styles[name].Valid();
    }

    /** Discard all styles and define the sixteen predefined ones, all based on Normal. */
    method ResetStyles()
      requires Valid()
      modifies this
      ensures Valid() && initialized
      ensures forall n :: n in styles <==> n == Normal || n in DerivedNames
      ensures Predefined(styles)
      ensures forall n :: n in styles ==> fresh(styles[n])
    {
      styles := PredefinedStyles();
      initialized := true;
    }
  }

  /** The fifteen predefined styles derived from Normal, in the order they are created. */
  const DerivedNames: seq<string> :=
    [SmallNormal, Heading1, Heading2, Heading3, Heading4, Bold, SmallBold, Underline, Italic,
     Footer, Header, TableHeader, TableRow, TableSubTotal, TableTotal]

  /** How each predefined style differs from Normal; every other name, Footer,
      Header and TableRow among them, is the table size delta without flags. */
  function VariationOf(name: string): Variation
  {
    if name == Heading1 then Variation(Config.DeltaHeading1, true, false, false)
    else if name == Heading2 then Variation(Config.DeltaHeading2, true, false, false)
    else if name == Heading3 then Variation(Config.DeltaHeading3, true, true, false)
    else if name == Heading4 then Variation(Config.DeltaHeading4, true, true, false)
    else if name == Bold then Variation(0.0, true, false, false)
    else if name == SmallBold then Variation(Config.DeltaSmall, true, false, false)
    else if name == Underline then Variation(0.0, false, false, true)
    else if name == Italic then Variation(0.0, false, true, false)
    else if name == SmallNormal then Variation(Config.DeltaSmall, false, false, false)
    else if name == TableHeader || name == TableTotal then Variation(Config.DeltaTable, true, false, false)
    else if name == TableSubTotal then Variation(Config.DeltaTable, false, true, false)
    else Variation(Config.DeltaTable, false, false, false)
  }

  /** The predefined styles as resetStyles leaves them: Normal and each derived style with its variation. */
  ghost predicate Predefined(m: map<string, TextStyle>)
    reads set n | n in m :: m[n]
  {
    Normal in m && IsNormal(m[Normal])
    && forall n :: n in DerivedNames ==> n in m && HasVariation(m[n], m[Normal], VariationOf(n))
  }

  /** Normal is not one of the derived names. */
  lemma NormalNotDerived(k: nat)
    requires k < |DerivedNames|
    ensures DerivedNames[k] != Normal
  {
  }

  /** A map holding Normal and every derived name, each derived style with
      its variation on Normal, holds the predefined styles. */
  lemma AllPredefined(m: map<string, TextStyle>, normal: TextStyle)
    requires Normal in m && m[Normal] == normal && IsNormal(normal)
    requires forall k :: 0 <= k < |DerivedNames| ==> DerivedNames[k] in m
    requires forall n :: n in m && n != Normal ==> HasVariation(m[n], normal, VariationOf(n))
    ensures Predefined(m)
  {
    forall n | n in DerivedNames
      ensures n in m && HasVariation(m[n], m[Normal], VariationOf(n))
    {
      var k :| 0 <= k < |DerivedNames| && DerivedNames[k] == n;
      NormalNotDerived(k);
    }
  }

  /** Normal and the fifteen styles derived from it, each newly created. */
  method PredefinedStyles() returns (styles: map<string, TextStyle>)
    ensures forall n :: n in styles <==> n == Normal || n in DerivedNames
    ensures forall n :: n in styles ==> styles[n].Valid() && fresh(styles[n])
    ensures Predefined(styles)
  {
    var normal := MakeNormal();
    styles := map[Normal := normal];
    var i := 0;
    while i < |DerivedNames|
      invariant 0 <= i <= |DerivedNames|
      invariant Normal in styles && styles[Normal] == normal && IsNormal(normal) && fresh(normal)
      invariant forall n :: n in styles ==> n == Normal || n in DerivedNames
      invariant forall k :: 0 <= k < i ==> DerivedNames[k] in styles
      invariant forall n :: n in styles ==> styles[n].Valid() && fresh(styles[n])
      invariant forall n :: n in styles && n != Normal ==> HasVariation(styles[n], normal, VariationOf(n))
    {
      var name := DerivedNames[i];
      NormalNotDerived(i);
      var s := Derive(name, normal, VariationOf(name));
      styles := styles[name := s];
      i := i + 1;
    }
    AllPredefined(styles, normal);
  }

  method MakeNormal() returns (normal: TextStyle)
    ensures fresh(normal) && IsNormal(normal) && normal.name == Normal
  {
    normal := new TextStyle(Normal, null);
    normal.SetFontFamily(Config.TextFontFamily);
    normal.SetSize(Config.TextFontSize);
    normal.SetBold(false);
    normal.SetItalic(false);
    normal.SetUnderline(false);
    normal.SetTextColor("#000000");
    normal.SetBackgroundColor("#FFFFFF");
  }

  /** One predefined style: based on Normal, reset, then given its variation. */
  method Derive(name: string, normal: TextStyle, v: Variation) returns (s: TextStyle)
    requires normal.Valid() && normal.base == null
    ensures fresh(s) && s.Valid() && s.name == name && HasVariation(s, normal, v)
  {
    s := new TextStyle(name, normal);
    s.ResetToDefault();
    if v.bold { s.SetBold(true); }
    if v.italic { s.SetItalic(true); }
    if v.underline { s.SetUnderline(true); }
    s.SetSizeDelta(v.delta);
  }

  /** With Normal at 9 points, the headings are 18, 15, 12 and 10 points
      and the small, table, header and footer styles 8; the flags are
      inherited from Normal unless the variation sets them. */
  lemma VariationLookups(s: TextStyle, normal: TextStyle, v: Variation)
    requires IsNormal(normal) && s.Valid() && HasVariation(s, normal, v)
    ensures s.GetSize() == 9.0 + v.delta
    ensures s.IsBold() == v.bold && s.IsItalic() == v.italic && s.IsUnderline() == v.underline
    ensures s.GetFontFamily() == "Helvetica"
    ensures s.GetTextColor() == "#000000" && s.GetBackgroundColor() == "#FFFFFF"
  {
  }

  lemma Heading1IsEighteenPoints(m: map<string, TextStyle>)
    requires Predefined(m) && m[Heading1].Valid()
    ensures m[Heading1].GetSize() == 18.0 && m[Heading1].IsBold()
    ensures m[TableRow].Valid() ==> m[TableRow].GetSize() == 8.0 && !m[TableRow].IsBold()
  {
    assert Heading1 in DerivedNames && TableRow in DerivedNames;
    VariationLookups(m[Heading1], m[Normal], VariationOf(Heading1));
    if m[TableRow].Valid() {
      VariationLookups(m[TableRow], m[Normal], VariationOf(TableRow));
    }
  }
}
