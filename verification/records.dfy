/** The file record and its extraction from a path
    (`RecursiveFileLister.extract_file_info` and the extraction loop of the
    lister), with the path separator fixed to '/'. */
module Records {
  import opened Wrappers
  import opened Strings
  import Seqs

  const Sep: char := '/'

  /** One discovered file. `fileName` is the last path segment, split on its
      first '.' into `fileBaseName` and `extension`; `folderNames` are the
      non-empty directory segments from the root down to the parent. */
  datatype FileRecord = FileRecord(
    filePath: string,
    fileName: string,
    extension: string,
    fileBaseName: string,
    folderNames: seq<string>)

  /** Extraction fails when the last path segment has no '.': the source's
      two-way unpacking of the split raises there. */
  datatype ExtractError = NoExtensionSeparator(fileName: string)

  /** The final component of `p` (POSIX `basename`): the longest suffix
      without a separator. */
  function BaseName(p: string): (name: string)
    ensures Sep !in name
    ensures |name| <= |p| && p[|p| - |name|..] == name
    ensures |name| < |p| ==> p[|p| - |name| - 1] == Sep
  {
    match LastIndexOf(p, Sep)
    case None => p
    case Some(i) => p[i + 1..]
  }

  predicate AllSep(s: string)
  {
    forall i :: 0 <= i < |s| ==> s[i] == Sep
  }

  /** Everything before the final component, separator included. */
  function DirHead(p: string): string
  {
    p[..|p| - |BaseName(p)|]
  }

  /** POSIX `dirname`: the head with trailing separators removed, unless the
      head is empty or made of separators only. */
  function DirName(p: string): (d: string)
    ensures Segments(d, Sep) == Segments(DirHead(p), Sep)
  {
    var head := DirHead(p);
    if |head| > 0 && !AllSep(head) then
      SegmentsIgnoreRStrip(head, Sep);
      RStrip(head, Sep)
    else head
  }

  /** Appending a separator-free, non-empty name to a head that is empty or
      ends with a separator adds that name as one more segment. */
  lemma SegmentsAfterHead(head: string, name: string)
    requires Sep !in name && |name| > 0
    requires head == [] || head[|head| - 1] == Sep
    ensures Segments(head + name, Sep) == Segments(head, Sep) + [name]
  {
    assert Split(name, Sep) == [name] by { assert IndexOf(name, Sep).None?; }
    if head == [] {
      assert head + name == name;
      assert Split(head, Sep) == [[]];
      Seqs.SelectSingleton(name, IsNonEmpty);
      Seqs.SelectSingleton([], IsNonEmpty);
    } else {
      var a := head[..|head| - 1];
      assert head == a + [Sep];
      assert head + name == a + [Sep] + name;
      assert Split(a + [Sep] + name, Sep) == Split(a, Sep) + [name] by { SplitConcat(a, name, Sep); }
      assert Split(a + [Sep], Sep) == Split(a, Sep) + [[]] by { SplitTrailingSep(a, Sep); }
      var sa := Split(a, Sep);
      assert Seqs.Select(sa + [name], IsNonEmpty) == Seqs.Select(sa, IsNonEmpty) + [name] by {
        Seqs.SelectAppend(sa, [name], IsNonEmpty);
        Seqs.SelectSingleton(name, IsNonEmpty);
      }
      assert Seqs.Select(sa + [[]], IsNonEmpty) == Seqs.Select(sa, IsNonEmpty) by {
        Seqs.SelectAppend(sa, [[]], IsNonEmpty);
        Seqs.SelectSingleton([], IsNonEmpty);
      }
    }
  }

  /** The non-empty segments of a path are its folder segments followed by
      its final component, when that is non-empty. */
  lemma PathSegments(p: string)
    requires |BaseName(p)| > 0
    ensures Segments(p, Sep) == Segments(DirName(p), Sep) + [BaseName(p)]
  {
    var name := BaseName(p);
    var head := DirHead(p);
    assert p == head + name;
    SegmentsAfterHead(head, name);
  }

  /** `rec` is the record of path `p`: it keeps the path, its name is the
      final component split on a '.' that is the first one, and its folders
      are the non-empty, separator-free segments before the name. */
  predicate DescribesPath(rec: FileRecord, p: string)
  {
    && rec.filePath == p
    && rec.fileName == BaseName(p)
    && rec.fileName == rec.fileBaseName + "." + rec.extension
    && '.' !in rec.fileBaseName
    && Sep !in rec.fileName
    && (forall k :: 0 <= k < |rec.folderNames| ==>
          |rec.folderNames[k]| > 0 && Sep !in rec.folderNames[k])
    && Segments(p, Sep) == rec.folderNames + [rec.fileName]
  }

  /** Builds the record of one path, or fails when its final component has
      no '.'. */
  function ExtractFileInfo(p: string): (r: Result<FileRecord, ExtractError>)
    ensures r.Failure? <==> '.' !in BaseName(p)
    ensures r.Failure? ==> r.error == NoExtensionSeparator(BaseName(p))
    ensures r.Success? ==> DescribesPath(r.value, p)
  {
    var name := BaseName(p);
    match SplitOnce(name, '.')
    case None => Failure(NoExtensionSeparator(name))
    case Some((base, ext)) =>
      PathSegments(p);
      SegmentsShape(DirName(p), Sep);
      Success(FileRecord(p, name, ext, base, Segments(DirName(p), Sep)))
  }

  /** Extracts the records of paths in the order given (the lister hands
      them over sorted); the first path that cannot be extracted aborts the
      whole pass. */
  function ExtractAll(paths: seq<string>): (r: Result<seq<FileRecord>, ExtractError>)
    ensures r.Success? ==>
      && |r.value| == |paths|
      && (forall k :: 0 <= k < |paths| ==> DescribesPath(r.value[k], paths[k]))
    ensures r.Failure? ==>
      exists k :: && 0 <= k < |paths|
                  && '.' !in BaseName(paths[k])
                  && r.error == NoExtensionSeparator(BaseName(paths[k]))
                  && (forall j :: 0 <= j < k ==> '.' in BaseName(paths[j]))
  {
    Seqs.MapAll(paths, ExtractFileInfo)
  }

  /** The final component is determined by the last separator: whatever
      precedes it does not matter. */
  lemma BaseNameAfterSep(h: string, name: string)
    requires Sep !in name
    ensures BaseName(h + [Sep] + name) == name
  {
    var p := h + [Sep] + name;
    assert p[|h| + 1..] == name;
    LastIndexIs(p, Sep, |h|);
  }

  /** Extraction recovers the parts a path was built from: the directory
      `h`, a base name without '.', and an extension after the first '.'. */
  lemma ExtractWithDot(h: string, base: string, ext: string)
    requires '.' !in base && Sep !in base && Sep !in ext
    ensures ExtractFileInfo(h + [Sep] + base + "." + ext) ==
      Success(FileRecord(h + [Sep] + base + "." + ext, base + "." + ext, ext, base, Segments(h, Sep)))
  {
    var name := base + "." + ext;
    var p := h + [Sep] + base + "." + ext;
    assert p == h + [Sep] + name;
    assert Sep !in name;
    BaseNameAfterSep(h, name);
    SplitOnceUnique(base, ext, '.');
    assert DirHead(p) == h + [Sep];
    SegmentsTrailingSep(h, Sep);
  }

  /** A final component without '.' cannot be extracted, whatever its directory. */
  lemma ExtractWithoutDot(h: string, name: string)
    requires '.' !in name && Sep !in name
    ensures ExtractFileInfo(h + [Sep] + name) == Failure(NoExtensionSeparator(name))
  {
    BaseNameAfterSep(h, name);
  }

  /** Example: "/a/b/report.tar.gz", in two steps: the directory
      "/a/b" has the segments "a" and "b" ... */
  lemma ExampleFolders()
    ensures Segments("/a/b", Sep) == ["a", "b"]
  {
    assert "/a/b" == Join(["", "a", "b"], Sep);
    SplitJoin(["", "a", "b"], Sep);
  }

  /** ... and a file "report.tar.gz" in a directory with those segments
      splits on its first '.' into "report" and "tar.gz". */
  lemma ExtractExample(h: string)
    requires Segments(h, Sep) == ["a", "b"]
    ensures ExtractFileInfo(h + "/report.tar.gz") ==
      Success(FileRecord(h + "/report.tar.gz", "report.tar.gz", "tar.gz", "report", ["a", "b"]))
  {
    assert "report" + "." + "tar.gz" == "report.tar.gz";
    assert h + "/report.tar.gz" == h + [Sep] + "report" + "." + "tar.gz";
    ExtractWithDot(h, "report", "tar.gz");
  }
}
