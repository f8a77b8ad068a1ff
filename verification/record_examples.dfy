/** The lister's extraction on the literal example path "/a/b/report.tar.gz". */
module RecordExamples {
  import opened Wrappers
  import opened Records

  /** The example's directory "/a/b" with the file name appended. */
  lemma ExampleOnDirectory(h: string, p: string)
    requires h == "/a/b" && h + "/report.tar.gz" == p
    ensures ExtractFileInfo(p) ==
      Success(FileRecord(p, "report.tar.gz", "tar.gz", "report", ["a", "b"]))
  {
    ExampleFolders();
    ExtractExample(h);
  }

  /** The example on its literal path. */
  lemma ExtractLiteralExample()
    ensures ExtractFileInfo("/a/b/report.tar.gz") ==
      Success(FileRecord("/a/b/report.tar.gz", "report.tar.gz", "tar.gz", "report", ["a", "b"]))
  {
    assert "/a/b" + "/report.tar.gz" == "/a/b/report.tar.gz";
    ExampleOnDirectory("/a/b", "/a/b/report.tar.gz");
  }
}
