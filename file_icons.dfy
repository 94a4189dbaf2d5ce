/**
 * The icon the exam-upload list shows beside each file (script.js, `handleFileUpload`):
 * the extension is the text after the last `.` (the whole name when there is none),
 * lower-cased, and picks an image, PDF or document icon, else the default one.
 */
module FileIcons {
  import opened Text

  datatype Icon = Image | Pdf | Document | Default

  /** The glyph the page renders for each icon. */
  function Glyph(icon: Icon): (glyph: string)
    ensures |glyph| >= 1 && (icon == Image <==> glyph[|glyph| - 1] == '\U{FE0F}')
  {
    match icon
    case Image => "\U{1F5BC}\U{FE0F}"
    case Pdf => "\U{1F4D5}"
    case Document => "\U{1F4DD}"
    case Default => "\U{1F4C4}"
  }

  /**
   * `name.split('.').pop()`: the last `.`-separated piece of `name`. It holds no `.`,
   * ends `name`, and is either all of `name` or directly preceded by a `.`.
   */
  function LastSegment(name: string): (ext: string)
    ensures |ext| <= |name| && name[|name| - |ext|..] == ext
    ensures forall j :: 0 <= j < |ext| ==> ext[j] != '.'
    ensures |ext| == |name| || name[|name| - |ext| - 1] == '.'
  {
    if name == [] then []
    else if name[|name| - 1] == '.' then []
    else LastSegment(name[..|name| - 1]) + [name[|name| - 1]]
  }

  /** The file's extension as `handleFileUpload` compares it. */
  function Extension(name: string): (ext: string)
    ensures |ext| <= |name|
    ensures forall j :: 0 <= j < |ext| ==> ext[j] != '.' && !('A' <= ext[j] <= 'Z')
  {
    ToLower(LastSegment(name))
  }

  /** The icon for an already lower-cased extension. */
  function IconForExtension(ext: string): (icon: Icon)
    ensures icon != Default ==> 3 <= |ext| <= 4 && ToLower(ext) == ext
  {
    if ext in ["jpg", "jpeg", "png", "gif"] then Image
    else if ext == "pdf" then Pdf
    else if ext in ["doc", "docx"] then Document
    else Default
  }

  /** Lower-casing the whole name first would pick the same icon. */
  function IconFor(name: string): (icon: Icon)
    ensures icon == IconForExtension(LastSegment(ToLower(name)))
  {
    LastSegmentLower(name);
    IconForExtension(Extension(name))
  }

  /** Splitting at the last dot commutes with lower-casing, since a dot is not a letter. */
  lemma {:induction false} LastSegmentLower(name: string)
    ensures LastSegment(ToLower(name)) == ToLower(LastSegment(name))
    decreases |name|
  {
    if name != [] {
      var lower := ToLower(name);
      assert lower[..|lower| - 1] == ToLower(name[..|name| - 1]);
      LastSegmentLower(name[..|name| - 1]);
    }
  }

  /** The four icons render as four different glyphs. */
  lemma GlyphsDistinct(a: Icon, b: Icon)
    requires a != b
    ensures Glyph(a) != Glyph(b)
  {
  }

  /** The piece after the last dot is what `LastSegment` returns, whatever precedes it. */
  lemma {:induction false} LastSegmentAfterDot(base: string, ext: string)
    requires forall j :: 0 <= j < |ext| ==> ext[j] != '.'
    ensures LastSegment(base + "." + ext) == ext
    decreases |ext|
  {
    var name := base + "." + ext;
    if ext != [] {
      assert name[..|name| - 1] == base + "." + ext[..|ext| - 1];
      LastSegmentAfterDot(base, ext[..|ext| - 1]);
      assert ext == ext[..|ext| - 1] + [ext[|ext| - 1]];
    }
  }

  /** A name without a dot is its own extension. */
  lemma {:induction false} LastSegmentNoDot(name: string)
    requires forall j :: 0 <= j < |name| ==> name[j] != '.'
    ensures LastSegment(name) == name
    decreases |name|
  {
    if name != [] {
      LastSegmentNoDot(name[..|name| - 1]);
      assert name == name[..|name| - 1] + [name[|name| - 1]];
    }
  }

  /**
   * Only the text after the last dot decides the icon, in any letter case: `x.tar.PDF`
   * gets the PDF icon, `photo.JPG` the image icon.
   */
  lemma IconOfDottedName(base: string, ext: string)
    requires forall j :: 0 <= j < |ext| ==> ext[j] != '.'
    ensures IconFor(base + "." + ext) == IconForExtension(ToLower(ext))
  {
    LastSegmentAfterDot(base, ext);
  }

  /** A name without a dot is read as an extension in full: `README` gets the default icon. */
  lemma IconOfUndottedName(name: string)
    requires forall j :: 0 <= j < |name| ==> name[j] != '.'
    ensures IconFor(name) == IconForExtension(ToLower(name))
  {
    LastSegmentNoDot(name);
  }

  /** A name ending in a dot has an empty extension and gets the default icon. */
  lemma TrailingDotIsDefault(base: string)
    ensures IconFor(base + ".") == Default
  {
    LastSegmentAfterDot(base, "");
    assert base + "." + "" == base + ".";
  }

  /** The icon classes partition the extensions: each listed one has its icon, all others the default. */
  lemma IconClasses(ext: string)
    ensures IconForExtension(ext) == Image <==> ext == "jpg" || ext == "jpeg" || ext == "png" || ext == "gif"
    ensures IconForExtension(ext) == Pdf <==> ext == "pdf"
    ensures IconForExtension(ext) == Document <==> ext == "doc" || ext == "docx"
  {
  }
}
