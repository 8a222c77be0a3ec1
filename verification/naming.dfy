/**
 Document and artifact names: a requested name is given the `.tex`
 extension when it lacks it, and the PDF name is derived with Python's
 replace-all `str.replace('.tex', '.pdf')`.
 */
module Naming {
  import opened Text
  import opened Paths

  /** Directory of the source documents, relative to the server's working directory. */
  const TexDir: string := "tex_files"
  /** Directory of the produced PDFs, relative to the server's working directory. */
  const PdfDir: string := "pdf_output"

  /** Both directories are plain relative names. */
  lemma DirsAreSegments()
    ensures IsSegment(TexDir) && !IsAbsolute(TexDir)
    ensures IsSegment(PdfDir) && !IsAbsolute(PdfDir)
  {
    assert TexDir[..1][0] == 't' && PdfDir[..1][0] == 'p';
  }

  /** `if not filename.endswith('.tex'): filename += '.tex'`. */
  function Normalise(filename: string): (r: string)
    ensures EndsWith(r, Tex)
    ensures StartsWith(r, filename)
    ensures r == filename <==> EndsWith(filename, Tex)
    ensures !EndsWith(filename, Tex) ==> |r| == |filename| + |Tex|
  {
    if EndsWith(filename, Tex) then filename else filename + Tex
  }

  /** Normalising a normalised name changes nothing. */
  lemma NormaliseIdempotent(filename: string)
    ensures Normalise(Normalise(filename)) == Normalise(filename)
  {
  }

  /** `filename.replace('.tex', '.pdf')`. */
  function PdfName(texName: string): (r: string)
    ensures |r| == |texName|
    ensures forall i :: !OccursAt(r, Tex, i)
    ensures EndsWith(texName, Tex) ==> EndsWith(r, Pdf)
    ensures (forall i :: !OccursAt(texName, Tex, i)) ==> r == texName
  {
    ReplaceTexLeavesNoTex(texName);
    ReplaceTexWithoutTex(texName);
    if EndsWith(texName, Tex) then
      ReplaceTexKeepsSuffix(texName);
      ReplaceAll(texName, Tex, Pdf)
    else
      ReplaceAll(texName, Tex, Pdf)
  }

  /** The PDF name of a normalised document name ends in `.pdf` and has its length. */
  lemma PdfNameOfNormalised(filename: string)
    ensures EndsWith(PdfName(Normalise(filename)), Pdf)
    ensures |PdfName(Normalise(filename))| == |Normalise(filename)|
  {
  }

  /** With `.tex` only as the suffix, the PDF name swaps that suffix for `.pdf`. */
  lemma PdfNameSwapsSuffix(stem: string)
    requires forall i :: !OccursAt(stem, Tex, i)
    ensures PdfName(stem + Tex) == stem + Pdf
  {
    ReplaceTexSuffixOnly(stem);
  }

  /**
   The PDF name keeps the text before the first `.tex`, turns that
   occurrence into `.pdf`, and continues with the PDF name of the rest; with
   the identity on names without `.tex`, this fixes the PDF name of every name.
   */
  lemma PdfNameStepsOverFirstTex(before: string, after: string)
    requires forall i :: !OccursAt(before, Tex, i)
    ensures PdfName(before + Tex + after) == before + Pdf + PdfName(after)
  {
    ReplaceTexFirstOccurrence(before, after);
  }

  /**
   Inner occurrences are replaced too: `a.tex.tex` becomes `a.pdf.pdf`,
   not the suffix swap `a.tex.pdf`.
   */
  lemma PdfNameReplacesInnerTex()
    ensures PdfName("a.tex.tex") == "a.pdf.pdf"
    ensures PdfName("a.tex.tex") != "a.tex" + Pdf
  {
    var s := "a.tex.tex";
    assert s[..4][0] != Tex[0];
    assert s[1..][..4] == Tex;
    assert s[1..][4..][..4] == Tex;
    assert s[1..][4..][4..] == [];
    assert ("a.tex" + Pdf)[2] == 't';
  }

  /** `TEX_DIR / filename`: a relative name lands inside `tex_files`; an absolute one escapes it. */
  function TexPath(filename: string): (p: string)
    ensures !IsAbsolute(filename) ==> p == TexDir + "/" + filename
    ensures IsAbsolute(filename) ==> p == filename
  {
    DirsAreSegments();
    // Both branches are the join; the second first establishes its shape.
    if IsAbsolute(filename) then Join(TexDir, filename)
    else
      JoinInsertsSlash(TexDir, filename);
      Join(TexDir, filename)
  }

  /** `PDF_DIR / pdf_name`: a relative name lands inside `pdf_output`; an absolute one escapes it. */
  function PdfPath(pdfName: string): (p: string)
    ensures !IsAbsolute(pdfName) ==> p == PdfDir + "/" + pdfName
    ensures IsAbsolute(pdfName) ==> p == pdfName
  {
    DirsAreSegments();
    // Both branches are the join; the second first establishes its shape.
    if IsAbsolute(pdfName) then Join(PdfDir, pdfName)
    else
      JoinInsertsSlash(PdfDir, pdfName);
      Join(PdfDir, pdfName)
  }
}
