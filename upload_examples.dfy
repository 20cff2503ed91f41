/** The extensions and routes of a few upload names. */
module UploadExamples {
  import opened Upload

  /** The extension of a name built from dot-free pieces is its last piece,
      lowercased. */
  lemma ExtensionOfJoin(parts: seq<string>)
    requires |parts| >= 1 && forall i :: 0 <= i < |parts| ==> '.' !in parts[i]
    ensures Extension(Join(parts, '.')) == Lower(parts[|parts| - 1])
  {
    SplitJoin(parts, '.');
    ExtensionOfParts(Join(parts, '.'), parts);
  }

  lemma LowerPdf()
    ensures Lower("PDF") == "pdf"
  {
    LowerMatches("PDF", "pdf");
  }

  /** The extension is case-insensitive: `CV.PDF` goes to the PDF extractor. */
  lemma UpperCaseExample()
    ensures Extension("CV.PDF") == "pdf" && Dispatch("CV.PDF") == Pdf
  {
    assert Join(["CV", "PDF"], '.') == "CV.PDF";
    ExtensionOfJoin(["CV", "PDF"]);
    LowerPdf();
  }

  /** Only the piece after the last dot counts. */
  lemma LastDotExample()
    ensures Extension("a.b.txt") == "txt" && Dispatch("a.b.txt") == Txt
  {
    assert Join(["a", "b", "txt"], '.') == "a.b.txt";
    ExtensionOfJoin(["a", "b", "txt"]);
    assert Lower("txt") == "txt";
  }

  /** A name ending in a dot has the empty extension and is refused. */
  lemma TrailingDotExample()
    ensures Extension("notes.") == "" && Dispatch("notes.") == Unsupported(UnsupportedMessage)
  {
    assert Join(["notes", ""], '.') == "notes.";
    ExtensionOfJoin(["notes", ""]);
  }

  /** A name without a dot is its own extension. */
  lemma NoDotExample()
    ensures Extension("txt") == "txt" && Dispatch("txt") == Txt
  {
    assert Join(["txt"], '.') == "txt";
    ExtensionOfJoin(["txt"]);
    assert Lower("txt") == "txt";
  }

  /** Any other extension, and the empty name, are refused with the message. */
  lemma RefusedExamples()
    ensures Dispatch("resume.csv") == Unsupported(UnsupportedMessage)
    ensures Dispatch("") == Unsupported(UnsupportedMessage)
  {
    assert Join(["resume", "csv"], '.') == "resume.csv";
    ExtensionOfJoin(["resume", "csv"]);
    assert Lower("csv")[0] == 'c';
    assert Join([""], '.') == "";
    ExtensionOfJoin([""]);
  }
}
