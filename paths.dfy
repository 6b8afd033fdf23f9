/** Where the script writes: the output folder (`getDefaultFolderPath`,
    `chooseFolder`), the file of each downloaded part (`downloadPart`) and
    the merged PDF. The current directory and the answer typed at the
    folder prompt are parameters. */
module Paths {
  import opened Optional
  import opened Strings
  import opened Formats

  /** `getDefaultFolderPath(name)`: a folder named after the score inside
      the current directory `cwd`. */
  function DefaultFolderPath(cwd: string, name: string): (folder: string)
    ensures cwd + "/" <= folder && EndsWith(folder, "/" + name)
    ensures |folder| == |cwd| + 1 + |name|
  {
    cwd + "/" + name
  }

  /** Scores with different names get different default folders. */
  lemma {:induction false} DefaultFolderPathInjective(cwd: string, name1: string, name2: string)
    requires DefaultFolderPath(cwd, name1) == DefaultFolderPath(cwd, name2)
    ensures name1 == name2
  {
    var f := DefaultFolderPath(cwd, name1);
    assert f[|cwd| + 1..] == name1 && f[|cwd| + 1..] == name2;
  }

  /** `chooseFolder(name)`: the answer to the folder prompt with surrounding
      whitespace removed, or the default folder when the answer is blank. */
  function ChooseFolder(cwd: string, name: string, answer: string): (folder: string)
    ensures folder != []
    ensures !AllSpace(answer) ==> folder == Strip(answer)
    ensures !AllSpace(answer) ==> !IsSpace(folder[0]) && !IsSpace(folder[|folder| - 1])
    ensures AllSpace(answer) ==> folder == DefaultFolderPath(cwd, name)
  {
    var change := Strip(answer);
    if |change| > 0 then change else DefaultFolderPath(cwd, name)
  }

  /** What tells the pages of one score apart: nothing for section 0,
      `-` and the section number otherwise. */
  function SectionAnnotation(section: nat): (ann: string)
    ensures ann == [] <==> section == 0
    ensures section > 0 ==> ann[0] == '-' && AllDigits(ann[1..]) && DecimalValue(ann[1..]) == section
    ensures section > 0 ==> |ann| > 1 && ann[1] != '0'
  {
    if section == 0 then ""
    else
      DecimalRoundTrip(section);
      assert ("-" + Decimal(section))[1..] == Decimal(section);
      "-" + Decimal(section)
  }

  /** The file `downloadPart` saves a part to:
      `{folder}/{name}-{format}{annotation}.{ext}`. `None` stands for the
      failed lookup `EXTS[format]` of a format the table does not have. */
  function PartPath(folder: string, name: string, format: string, section: nat := 0): (path: Option<string>)
    ensures path.Some? <==> format in EXTS
    ensures path.Some? ==> folder + "/" + name + "-" + format <= path.value
    ensures path.Some? ==> EndsWith(path.value, "." + EXTS[format])
    ensures path.Some? && section == 0 ==>
      path.value == folder + "/" + name + "-" + format + "." + EXTS[format]
    ensures path.Some? && section > 0 ==>
      EndsWith(path.value, "-" + format + "-" + Decimal(section) + "." + EXTS[format])
    ensures path.Some? && section > 0 ==>
      path.value == folder + "/" + name + "-" + format + "-" + Decimal(section) + "." + EXTS[format]
  {
    if format in EXTS then
      PartPathShape(folder, name, format, section, EXTS[format]);
      Some(folder + "/" + name + "-" + format + SectionAnnotation(section) + "." + EXTS[format])
    else None
  }

  /** The shape of `{folder}/{name}-{format}{annotation}.{ext}` for any
      extension. */
  lemma {:induction false} PartPathShape(folder: string, name: string, format: string, section: nat, ext: string)
    ensures var path := folder + "/" + name + "-" + format + SectionAnnotation(section) + "." + ext;
      && folder + "/" + name + "-" + format <= path
      && EndsWith(path, "." + ext)
      && (section == 0 ==> path == folder + "/" + name + "-" + format + "." + ext)
      && (section > 0 ==> EndsWith(path, "-" + format + "-" + Decimal(section) + "." + ext))
      && (section > 0 ==> path == folder + "/" + name + "-" + format + "-" + Decimal(section) + "." + ext)
  {
    var dir, ann := folder + "/" + name, SectionAnnotation(section);
    StemShape(dir, format, ann, ext);
    if section > 0 {
      assert ann == "-" + Decimal(section);
      AnnotationShape(dir, format, Decimal(section), ext);
    }
  }

  /** A path built on `{dir}-{format}` starts with it and ends in its extension. */
  lemma {:induction false} StemShape(dir: string, format: string, ann: string, ext: string)
    ensures dir + "-" + format <= dir + "-" + format + ann + "." + ext
    ensures EndsWith(dir + "-" + format + ann + "." + ext, "." + ext)
    ensures ann == [] ==> dir + "-" + format + ann + "." + ext == dir + "-" + format + "." + ext
  {
    var stem := dir + "-" + format;
    assert stem + ann + "." + ext == stem + (ann + ("." + ext));
    assert stem + ann + "." + ext == (stem + ann) + ("." + ext);
    EndsWithAppend(stem + ann, "." + ext);
    if ann == [] {
      assert stem + ann == stem;
    }
  }

  /** With a section annotation the path ends in `-{format}-{digits}.{ext}`. */
  lemma {:induction false} AnnotationShape(dir: string, format: string, digits: string, ext: string)
    ensures EndsWith(dir + "-" + format + ("-" + digits) + "." + ext, "-" + format + "-" + digits + "." + ext)
    ensures dir + "-" + format + ("-" + digits) + "." + ext == dir + "-" + format + "-" + digits + "." + ext
  {
    var stem := dir + "-" + format;
    assert stem + ("-" + digits) == stem + "-" + digits;
    var tail := "-" + format + "-" + digits + "." + ext;
    assert stem + "-" + digits + "." + ext == dir + tail;
    EndsWithAppend(dir, tail);
  }

  /** The inverse of `PartPath`: the section a file of the given folder,
      name and format was saved for. */
  function SectionOfPath(path: string, folder: string, name: string, format: string): Option<nat>
  {
    var stem := folder + "/" + name + "-" + format;
    if format !in EXTS then None
    else
      var ext := "." + EXTS[format];
      if !(stem <= path) || |path| < |stem| + |ext| || !EndsWith(path, ext) then None
      else
        var mid := path[|stem|..|path| - |ext|];
        if mid == [] then Some(0)
        else if |mid| > 1 && mid[0] == '-' && AllDigits(mid[1..]) then Some(DecimalValue(mid[1..]))
        else None
  }

  /** The section can be read back from the file name. */
  lemma {:induction false} SectionOfPathRoundTrip(folder: string, name: string, format: string, section: nat)
    requires format in EXTS
    ensures SectionOfPath(PartPath(folder, name, format, section).value, folder, name, format) == Some(section)
  {
    var stem := folder + "/" + name + "-" + format;
    var ext := "." + EXTS[format];
    var ann := SectionAnnotation(section);
    var path := stem + ann + ext;
    assert PartPath(folder, name, format, section).value == path;
    assert stem <= path;
    assert path[|stem|..|path| - |ext|] == ann;
    assert path[|path| - |ext|..] == ext;
    if section > 0 {
      assert ann[1..] == Decimal(section);
      DecimalRoundTrip(section);
    }
  }

  /** Different sections of one format are saved to different files. */
  lemma {:induction false} PartPathInjective(folder: string, name: string, format: string, i: nat, j: nat)
    requires format in EXTS
    requires PartPath(folder, name, format, i) == PartPath(folder, name, format, j)
    ensures i == j
  {
    SectionOfPathRoundTrip(folder, name, format, i);
    SectionOfPathRoundTrip(folder, name, format, j);
  }

  /** The merged document `{folder}/{name}.pdf`. */
  function PdfPath(folder: string, name: string): (path: string)
    ensures folder + "/" + name <= path && EndsWith(path, ".pdf")
    ensures |path| == |folder| + 1 + |name| + 4
  {
    folder + "/" + name + ".pdf"
  }

  /** Scores with different names in one folder get different PDF files. */
  lemma {:induction false} PdfPathInjective(folder: string, name1: string, name2: string)
    requires PdfPath(folder, name1) == PdfPath(folder, name2)
    ensures name1 == name2
  {
    var p := PdfPath(folder, name1);
    assert p[|folder| + 1..|p| - 4] == name1 && p[|folder| + 1..|p| - 4] == name2;
  }

  /** The files of one run never coincide: the audio, the MIDI file, any
      page image and the PDF all end in different extensions, whatever the
      folder and the name. So removing the page images after the merge
      leaves the audio, the MIDI file and the PDF in place. */
  lemma {:induction false} OutputPathsDistinct(folder: string, name: string, section: nat)
    ensures var mp3 := PartPath(folder, name, "mp3").value;
      var midi := PartPath(folder, name, "midi").value;
      var img := PartPath(folder, name, "img", section).value;
      var pdf := PdfPath(folder, name);
      mp3 != midi && mp3 != img && midi != img && pdf != img && pdf != mp3 && pdf != midi
  {
    var mp3 := PartPath(folder, name, "mp3").value;
    var midi := PartPath(folder, name, "midi").value;
    var img := PartPath(folder, name, "img", section).value;
    var pdf := PdfPath(folder, name);
    assert mp3[|mp3| - 1] == '3';
    assert midi[|midi| - 1] == 'i';
    assert img[|img| - 1] == 'g';
    assert pdf[|pdf| - 1] == 'f';
  }
}
