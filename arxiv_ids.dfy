/**
 * Deriving names from a paper link: the identifier (the last `/`-separated
 * segment of the link), the canonical PDF download URL and the local file
 * path.  Everything here is expression-only, as in `descargar_pdf`.
 */
module ArxivIds {
  import opened Wrappers

  /** Python's `s.count(c)` for one character. */
  function Occurrences(s: string, c: char): (n: nat)
    ensures n <= |s|
    ensures n == 0 <==> c !in s
    decreases |s|
  {
    if s == [] then 0
    else (if s[0] == c then 1 else 0) + Occurrences(s[1..], c)
  }

  /** Python's `s.split(sep)` for a one-character separator: the pieces between
      separators, empty pieces included, so there is always at least one. */
  function Split(s: string, sep: char): (parts: seq<string>)
    ensures |parts| == Occurrences(s, sep) + 1
    ensures forall i :: 0 <= i < |parts| ==> sep !in parts[i]
    decreases |s|
  {
    if s == [] then [[]]
    else
      var rest := Split(s[1..], sep);
      if s[0] == sep then [[]] + rest
      else [[s[0]] + rest[0]] + rest[1..]
  }

  /** Python's `sep.join(parts)`. */
  function Join(parts: seq<string>, sep: char): string
  {
    if parts == [] then []
    else if |parts| == 1 then parts[0]
    else parts[0] + [sep] + Join(parts[1..], sep)
  }

  function Last<T>(s: seq<T>): T
    requires s != []
  {
    s[|s| - 1]
  }

  /** Joining after an empty first piece starts with the separator. */
  lemma JoinEmptyFirst(parts: seq<string>, sep: char)
    requires parts != []
    ensures Join([[]] + parts, sep) == [sep] + Join(parts, sep)
  {
    assert ([[]] + parts)[1..] == parts;
  }

  /** Putting a character in front of the first piece puts it in front of the join. */
  lemma JoinConsFirst(c: char, parts: seq<string>, sep: char)
    requires parts != []
    ensures Join([[c] + parts[0]] + parts[1..], sep) == [c] + Join(parts, sep)
  {
    var q := [[c] + parts[0]] + parts[1..];
    if |parts| > 1 {
      assert q[1..] == parts[1..];
    }
  }

  /** Splitting loses nothing: joining the pieces back gives the string. */
  lemma {:induction false} SplitJoin(s: string, sep: char)
    ensures Join(Split(s, sep), sep) == s
    decreases |s|
  {
    if s != [] {
      var rest := Split(s[1..], sep);
      SplitJoin(s[1..], sep);
      if s[0] == sep {
        assert Split(s, sep) == [[]] + rest;
        JoinEmptyFirst(rest, sep);
      } else {
        assert Split(s, sep) == [[s[0]] + rest[0]] + rest[1..];
        JoinConsFirst(s[0], rest, sep);
      }
      assert [s[0]] + s[1..] == s;
    }
  }

  /** Splitting at the first separator of a string. */
  lemma {:induction false} SplitAtSeparator(a: string, sep: char, b: string)
    requires sep !in a
    ensures Split(a + [sep] + b, sep) == [a] + Split(b, sep)
    decreases |a|
  {
    var s := a + [sep] + b;
    if a != [] {
      assert s[0] == a[0] != sep;
      assert s[1..] == a[1..] + [sep] + b;
      SplitAtSeparator(a[1..], sep, b);
      var rest := Split(s[1..], sep);
      assert rest[0] == a[1..] && rest[1..] == Split(b, sep);
      assert Split(s, sep) == [[a[0]] + rest[0]] + rest[1..];
      assert [a[0]] + a[1..] == a;
    } else {
      assert s[0] == sep && s[1..] == b;
    }
  }

  /** Joining pieces that hold no separator and splitting again gives the pieces. */
  lemma {:induction false} JoinSplit(parts: seq<string>, sep: char)
    requires parts != []
    requires forall i :: 0 <= i < |parts| ==> sep !in parts[i]
    ensures Split(Join(parts, sep), sep) == parts
    decreases |parts|
  {
    if |parts| == 1 {
      SplitNoSeparator(parts[0], sep);
    } else {
      JoinSplit(parts[1..], sep);
      SplitAtSeparator(parts[0], sep, Join(parts[1..], sep));
    }
  }

  /** A string without the separator splits into itself alone. */
  lemma SplitNoSeparator(s: string, sep: char)
    requires sep !in s
    ensures Split(s, sep) == [s]
  {
    SplitJoin(s, sep);
  }

  /** The last piece of a join of two or more pieces follows the last separator. */
  lemma {:induction false} JoinLast(parts: seq<string>, sep: char)
    requires |parts| >= 2
    ensures Join(parts, sep) == Join(parts[..|parts| - 1], sep) + [sep] + Last(parts)
    decreases |parts|
  {
    if |parts| > 2 {
      JoinLast(parts[1..], sep);
      assert parts[1..][..|parts| - 2] == parts[..|parts| - 1][1..];
    }
  }

  /** `seg` is the part of `s` after its last `sep`, or all of `s` when there is
      no `sep`: a suffix free of `sep` that is either the whole string or
      preceded by `sep`. */
  ghost predicate IsLastSegment(s: string, sep: char, seg: string)
  {
    && |seg| <= |s|
    && seg == s[|s| - |seg|..]
    && sep !in seg
    && (|seg| == |s| || s[|s| - |seg| - 1] == sep)
  }

  /** At most one string is the last segment. */
  lemma LastSegmentUnique(s: string, sep: char, a: string, b: string)
    requires IsLastSegment(s, sep, a) && IsLastSegment(s, sep, b)
    ensures a == b
  {
  }

  /** The last piece of `s.split(sep)` is the last segment of `s`. */
  lemma LastOfSplit(s: string, sep: char)
    ensures IsLastSegment(s, sep, Last(Split(s, sep)))
  {
    var parts := Split(s, sep);
    SplitJoin(s, sep);
    if |parts| >= 2 {
      JoinLast(parts, sep);
    }
  }

  /** The paper identifier: `file_url.split("/")[-1]`. */
  function FileId(fileUrl: string): (id: string)
    ensures IsLastSegment(fileUrl, '/', id)
  {
    LastOfSplit(fileUrl, '/');
    Last(Split(fileUrl, '/'))
  }

  /** Any suffix of the link that holds no `/` and follows its last `/` (or is
      the whole link) is the identifier. */
  lemma FileIdIsLastSegment(fileUrl: string, id: string)
    requires IsLastSegment(fileUrl, '/', id)
    ensures FileId(fileUrl) == id
  {
    LastSegmentUnique(fileUrl, '/', FileId(fileUrl), id);
  }

  /** A link without `/` is its own identifier; an identifier never holds `/`. */
  lemma FileIdWithoutSlash(fileUrl: string)
    ensures '/' !in FileId(fileUrl)
    ensures '/' !in fileUrl ==> FileId(fileUrl) == fileUrl
  {
  }

  const PdfPrefix: string := "https://arxiv.org/pdf/"
  const PdfSuffix: string := ".pdf"

  /** The download URL: `f"https://arxiv.org/pdf/{file_id}.pdf"`. */
  function PdfUrl(fileId: string): (url: string)
    ensures |url| == |PdfPrefix| + |fileId| + |PdfSuffix|
    ensures url[..|PdfPrefix|] == PdfPrefix && url[|url| - |PdfSuffix|..] == PdfSuffix
    ensures url[|PdfPrefix|..|url| - |PdfSuffix|] == fileId
  {
    PdfPrefix + fileId + PdfSuffix
  }

  /** Reads the identifier back out of a download URL. */
  function IdOfPdfUrl(url: string): Option<string>
  {
    if |url| >= |PdfPrefix| + |PdfSuffix|
       && url[..|PdfPrefix|] == PdfPrefix
       && url[|url| - |PdfSuffix|..] == PdfSuffix
    then Some(url[|PdfPrefix|..|url| - |PdfSuffix|])
    else None
  }

  /** Every download URL starts with the fixed prefix and ends in `.pdf`, and the
      identifier can be read back, so distinct identifiers give distinct URLs. */
  lemma PdfUrlRoundTrip(fileId: string)
    ensures PdfUrl(fileId)[..|PdfPrefix|] == PdfPrefix
    ensures PdfUrl(fileId)[|PdfUrl(fileId)| - |PdfSuffix|..] == PdfSuffix
    ensures IdOfPdfUrl(PdfUrl(fileId)) == Some(fileId)
  {
    var u := PdfUrl(fileId);
    assert u[..|PdfPrefix|] == PdfPrefix;
    assert u[|u| - |PdfSuffix|..] == PdfSuffix;
    assert u[|PdfPrefix|..|u| - |PdfSuffix|] == fileId;
  }

  /** The other direction: a URL that reads back as an identifier is that
      identifier's download URL. */
  lemma IdOfPdfUrlSound(url: string, fileId: string)
    requires IdOfPdfUrl(url) == Some(fileId)
    ensures url == PdfUrl(fileId)
  {
    var p, q := |PdfPrefix|, |url| - |PdfSuffix|;
    assert url == url[..p] + url[p..q] + url[q..];
  }

  /** Python's `os.path.join(a, b)` with POSIX separators.  The name always ends
      the path; unless it is absolute, the directory comes first, and the name
      follows a `/` whenever the directory is not empty, one being inserted only
      when the directory does not already end in `/`. */
  function PathJoin(dir: string, name: string): (path: string)
    ensures |name| <= |path| && path[|path| - |name|..] == name
    ensures |name| > 0 && name[0] == '/' ==> path == name
    ensures !(|name| > 0 && name[0] == '/') ==>
      && |dir| + |name| <= |path| <= |dir| + 1 + |name|
      && path[..|dir|] == dir
      && (dir != [] ==> path[|path| - |name| - 1] == '/')
      && (|path| == |dir| + 1 + |name| ==> dir != [] && dir[|dir| - 1] != '/')
  {
    if |name| > 0 && name[0] == '/' then name
    else if dir == [] || dir[|dir| - 1] == '/' then dir + name
    else dir + "/" + name
  }

  /** Where a download is stored: `os.path.join(output_dir, f"{file_id}.pdf")`. */
  function OutputPath(outputDir: string, fileId: string): (path: string)
    ensures |fileId| + |PdfSuffix| <= |path| && path[|path| - |fileId| - |PdfSuffix|..] == fileId + PdfSuffix
  {
    PathJoin(outputDir, fileId + PdfSuffix)
  }

  /** The path is the directory, then one `/` exactly when the directory is
      non-empty and does not already end in `/`, then `<id>.pdf`. */
  lemma OutputPathJoin(outputDir: string, fileId: string)
    requires '/' !in fileId
    ensures var path := OutputPath(outputDir, fileId);
      && (path == outputDir + fileId + PdfSuffix || path == outputDir + "/" + fileId + PdfSuffix)
      && (path == outputDir + "/" + fileId + PdfSuffix <==> outputDir != [] && outputDir[|outputDir| - 1] != '/')
  {
    var name := fileId + PdfSuffix;
    assert name[0] != '/' by {
      if fileId != [] { assert name[0] == fileId[0]; }
    }
    if outputDir != [] && outputDir[|outputDir| - 1] != '/' {
      assert OutputPath(outputDir, fileId) == outputDir + "/" + name;
    } else {
      assert OutputPath(outputDir, fileId) == outputDir + name;
      assert |outputDir + name| != |outputDir + "/" + name|;
    }
  }

  /** The stored file's own last segment is `<id>.pdf`. */
  lemma OutputPathName(outputDir: string, fileId: string)
    requires '/' !in fileId
    ensures FileId(OutputPath(outputDir, fileId)) == fileId + PdfSuffix
  {
    var name := fileId + PdfSuffix;
    var path := OutputPath(outputDir, fileId);
    assert '/' !in name;
    OutputPathJoin(outputDir, fileId);
    if outputDir != [] && outputDir[|outputDir| - 1] != '/' {
      assert path == outputDir + "/" + name;
      assert path[|path| - |name| - 1] == '/';
    } else if outputDir != [] {
      assert path == outputDir + name;
      assert path[|path| - |name| - 1] == outputDir[|outputDir| - 1];
    } else {
      assert path == name;
    }
    assert path[|path| - |name|..] == name;
    FileIdIsLastSegment(path, name);
  }

  /** The worked example of the source's comment: the identifier of a link. */
  lemma ExampleLink(link: string)
    requires link == "https://arxiv.org/pdf/2301.04567"
    ensures FileId(link) == "2301.04567"
  {
    assert link == PdfPrefix + "2301.04567";
    FileIdIsLastSegment(link, "2301.04567");
  }

  /** The same example continued: its download URL and where the paper is saved. */
  lemma ExampleDownload(fileId: string)
    requires fileId == "2301.04567"
    ensures PdfUrl(fileId) == "https://arxiv.org/pdf/2301.04567.pdf"
    ensures OutputPath("data", fileId) == "data/2301.04567.pdf"
  {
  }
}
