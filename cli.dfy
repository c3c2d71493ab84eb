/** The name of the Markdown file `pid-ingest --save-markdown` writes (cli.py). */
module Cli {
  import opened Wrappers
  import opened Strings

  /** pdf.rsplit('.', 1)[0]: the path up to its last '.', or all of it. */
  function Stem(pdf: string): (stem: string)
    ensures |stem| <= |pdf|
  {
    var i := RFind(pdf, ".");
    if i == -1 then pdf else pdf[..i]
  }

  /** output or f"{pdf.rsplit('.', 1)[0]}.md": None and "" are both falsy. */
  function DefaultOutputName(pdf: string, output: Option<string>): (name: string)
    ensures output.Some? && output.value != "" ==> name == output.value
  {
    if output.Some? && output.value != "" then output.value else Stem(pdf) + ".md"
  }

  lemma DotAt(s: string, i: int)
    ensures OccursAt(s, ".", i) <==> 0 <= i < |s| && s[i] == '.'
  {
    if 0 <= i < |s| {
      assert s[i..i + 1] == [s[i]];
    }
  }

  /** Only the last '.' of the whole path counts, wherever it is, and one
      extension at most is removed; a path with no '.' is kept whole. */
  lemma StemSpec(pdf: string)
    ensures (forall j :: 0 <= j < |pdf| ==> pdf[j] != '.') ==> Stem(pdf) == pdf
    ensures forall i :: 0 <= i < |pdf| && pdf[i] == '.' && (forall j :: i < j < |pdf| ==> pdf[j] != '.') ==>
      Stem(pdf) == pdf[..i]
  {
    var r := RFind(pdf, ".");
    DotAt(pdf, r);
    forall j | 0 <= j < |pdf| && pdf[j] == '.' ensures r != -1 && j <= r {
      DotAt(pdf, j);
    }
    forall i | 0 <= i < |pdf| && pdf[i] == '.' && (forall j :: i < j < |pdf| ==> pdf[j] != '.')
      ensures Stem(pdf) == pdf[..i]
    {
      DotAt(pdf, i);
    }
  }

  /** Without a usable output name, the name ends in ".md" after the stem, and
      the stem is the path when it has no '.'. */
  lemma DefaultName(pdf: string, output: Option<string>)
    ensures output.None? || output.value == "" ==>
      DefaultOutputName(pdf, output) == Stem(pdf) + ".md"
      && ((forall j :: 0 <= j < |pdf| ==> pdf[j] != '.') ==> DefaultOutputName(pdf, output) == pdf + ".md")
  {
    StemSpec(pdf);
  }

  /** The stem of a path whose only '.' is at i. */
  lemma StemAt(pdf: string, i: nat)
    requires i < |pdf| && pdf[i] == '.' && forall j :: i < j < |pdf| ==> pdf[j] != '.'
    ensures Stem(pdf) == pdf[..i]
  {
    StemSpec(pdf);
  }

  /** sample.pdf gives sample.md, with no output name or an empty one. */
  lemma SampleName()
    ensures DefaultOutputName("sample.pdf", None) == "sample.md"
    ensures DefaultOutputName("sample.pdf", Some("")) == "sample.md"
  {
    StemAt("sample.pdf", 6);
    assert "sample.pdf"[..6] == "sample";
  }

  /** Only one extension is removed: archive.tar.gz gives archive.tar.md. */
  lemma TwoExtensionsName()
    ensures DefaultOutputName("archive.tar.gz", None) == "archive.tar.md"
  {
    StemAt("archive.tar.gz", 11);
    assert "archive.tar.gz"[..11] == "archive.tar";
  }

  /** A '.' in a directory name counts when the file name has none. */
  lemma DirectoryDotName()
    ensures DefaultOutputName("v1.2/drawing", None) == "v1.md"
  {
    StemAt("v1.2/drawing", 2);
    assert "v1.2/drawing"[..2] == "v1";
  }

  /** A path with no '.' gets ".md" appended. */
  lemma NoDotName()
    ensures DefaultOutputName("drawing", None) == "drawing.md"
  {
    StemSpec("drawing");
  }
}
