/**
 * `descargar_pdf`: fetch `https://arxiv.org/pdf/<id>.pdf` and stream the body
 * into `<output_dir>/<id>.pdf`.
 *
 * The HTTP client and the disk are outside collaborators.  The network is a
 * scripted server: a queue of replies handed out one per request, with a log of
 * the URLs requested.  The disk is a map from paths to contents.  `World`
 * is a snapshot of both, and `Download` says what one call does to it; the
 * method `DownloadPdf` runs the source's steps against the two objects and is
 * proved to agree with `Download`.
 */
module Downloads {
  import opened Wrappers
  import opened ArxivIds

  type Byte = bv8
  type Bytes = seq<Byte>

  /** The body chunks written one after another. */
  function Concat(chunks: seq<Bytes>): Bytes
  {
    if chunks == [] then [] else Concat(chunks[..|chunks| - 1]) + chunks[|chunks| - 1]
  }

  /** Writing chunks in two batches writes the same bytes as writing them at once. */
  lemma {:induction false} ConcatAppend(a: seq<Bytes>, b: seq<Bytes>)
    ensures Concat(a + b) == Concat(a) + Concat(b)
    decreases |b|
  {
    if b != [] {
      var init := b[..|b| - 1];
      assert (a + b)[..|a + b| - 1] == a + init;
      ConcatAppend(a, init);
      calc {
        Concat(a + b);
        Concat(a + init) + b[|b| - 1];
        Concat(a) + Concat(init) + b[|b| - 1];
        Concat(a) + (Concat(init) + b[|b| - 1]);
      }
    } else {
      assert a + b == a;
    }
  }

  /** The file is empty exactly when every chunk is. */
  lemma {:induction false} ConcatEmpty(chunks: seq<Bytes>)
    ensures Concat(chunks) == [] <==> forall i :: 0 <= i < |chunks| ==> chunks[i] == []
    decreases |chunks|
  {
    if chunks != [] {
      var init := chunks[..|chunks| - 1];
      ConcatEmpty(init);
      assert forall i :: 0 <= i < |init| ==> init[i] == chunks[i];
    }
  }

  /** What the server does with one request. */
  datatype Reply =
      /** `requests.get` raised a `RequestException` (no connection, timeout). */
    | Unreachable
      /** A response; `interrupted` means reading the body raised a
          `RequestException` after the listed chunks had arrived. */
    | Response(status: int, chunks: seq<Bytes>, interrupted: bool)

  /** The reply to the next request; a server with no reply left is unreachable. */
  function NextReply(replies: seq<Reply>): Reply
  {
    if replies == [] then Unreachable else replies[0]
  }

  function RestReplies(replies: seq<Reply>): seq<Reply>
  {
    if replies == [] then [] else replies[1..]
  }

  /** The disk, the replies still to come and the URLs requested so far. */
  datatype World = World(files: map<string, Bytes>, replies: seq<Reply>, log: seq<string>)

  /** What `descargar_pdf` returns, and the world after it. */
  datatype Outcome = Outcome(result: Option<string>, world: World)

  /** One call of `descargar_pdf(fileUrl, outputDir)`.  On status 200 the file is
      opened for writing (created or emptied) and every chunk that arrives is
      written, even if the stream then breaks; only an unbroken body returns the
      path.  Any other status, or no connection, leaves the disk alone. */
  function Download(w: World, fileUrl: string, outputDir: string): (o: Outcome)
    ensures o.result.Some? ==> o.result.value in o.world.files
    ensures w.files.Keys <= o.world.files.Keys <= w.files.Keys + {OutputPath(outputDir, FileId(fileUrl))}
  {
    var id := FileId(fileUrl);
    var asked := w.(replies := RestReplies(w.replies), log := w.log + [PdfUrl(id)]);
    match NextReply(w.replies)
    case Unreachable => Outcome(None, asked)
    case Response(status, chunks, interrupted) =>
      if status != 200 then Outcome(None, asked)
      else
        var path := OutputPath(outputDir, id);
        Outcome(if interrupted then None else Some(path),
                asked.(files := w.files[path := Concat(chunks)]))
  }

  predicate IsOk(reply: Reply)
  {
    reply.Response? && reply.status == 200
  }

  /** A download succeeds exactly when the reply is a 200 whose body arrived in
      full; it then returns `<outputDir>/<id>.pdf`, whose content is the
      chunks in order. */
  lemma DownloadSucceeds(w: World, fileUrl: string, outputDir: string)
    ensures var o := Download(w, fileUrl, outputDir);
      var reply := NextReply(w.replies);
      && (o.result.Some? <==> IsOk(reply) && !reply.interrupted)
      && (o.result.Some? ==> o.result.value == OutputPath(outputDir, FileId(fileUrl))
                              && FileId(o.result.value) == FileId(fileUrl) + PdfSuffix
                              && o.world.files[o.result.value] == Concat(reply.chunks))
  {
    var id := FileId(fileUrl);
    var o := Download(w, fileUrl, outputDir);
    FileIdWithoutSlash(fileUrl);
    OutputPathName(outputDir, id);
    DownloadEffect(w, fileUrl, outputDir);
    match NextReply(w.replies)
    case Unreachable =>
    case Response(status, chunks, interrupted) =>
      assert o.result == if status == 200 && !interrupted then Some(OutputPath(outputDir, id)) else None;
  }

  /** Any status other than 200, or no connection: the result is None, no file
      is written, and the one request is still made and logged. */
  lemma DownloadFailsCleanly(w: World, fileUrl: string, outputDir: string)
    requires !IsOk(NextReply(w.replies))
    ensures Download(w, fileUrl, outputDir).result == None
    ensures Download(w, fileUrl, outputDir).world.files == w.files
  {
  }

  /** Every download asks for exactly one URL, the canonical one, and uses up
      exactly one reply. */
  lemma DownloadRequest(w: World, fileUrl: string, outputDir: string)
    ensures Download(w, fileUrl, outputDir).world.log == w.log + [PdfUrl(FileId(fileUrl))]
    ensures Download(w, fileUrl, outputDir).world.replies == RestReplies(w.replies)
  {
  }

  /** The disk changes only on status 200, and then only at
      `<outputDir>/<id>.pdf`, whose old content is replaced by the body. */
  lemma DownloadEffect(w: World, fileUrl: string, outputDir: string)
    ensures Download(w, fileUrl, outputDir).world.files
         == if IsOk(NextReply(w.replies))
            then w.files[OutputPath(outputDir, FileId(fileUrl)) := Concat(NextReply(w.replies).chunks)]
            else w.files
  {
  }

  /** No file other than `<outputDir>/<id>.pdf` changes. */
  lemma DownloadFrame(w: World, fileUrl: string, outputDir: string, path: string)
    requires path != OutputPath(outputDir, FileId(fileUrl))
    ensures var w' := Download(w, fileUrl, outputDir).world;
      && (path in w'.files <==> path in w.files)
      && (path in w.files ==> w'.files[path] == w.files[path])
  {
    DownloadEffect(w, fileUrl, outputDir);
  }

  /** Downloading each link of `links` in turn, ignoring the results. */
  function DownloadAll(w: World, links: seq<string>, outputDir: string): (w': World)
    ensures |w'.log| == |w.log| + |links| && w'.log[..|w.log|] == w.log
    ensures w.files.Keys <= w'.files.Keys
  {
    if links == [] then w
    else Download(DownloadAll(w, links[..|links| - 1], outputDir), links[|links| - 1], outputDir).world
  }

  /** Downloading one more link is one more download on the state reached. */
  lemma DownloadAllSnoc(w: World, links: seq<string>, link: string, outputDir: string)
    ensures DownloadAll(w, links + [link], outputDir)
         == Download(DownloadAll(w, links, outputDir), link, outputDir).world
  {
    assert (links + [link])[..|links|] == links;
  }

  /** The URLs requested for `links`, one per link in order. */
  function Requests(links: seq<string>): (urls: seq<string>)
    ensures |urls| == |links|
    ensures forall i :: 0 <= i < |links| ==> urls[i] == PdfUrl(FileId(links[i]))
  {
    if links == [] then [] else Requests(links[..|links| - 1]) + [PdfUrl(FileId(links[|links| - 1]))]
  }

  /** Each link is requested exactly once, in order. */
  lemma {:induction false} DownloadAllRequests(w: World, links: seq<string>, outputDir: string)
    ensures DownloadAll(w, links, outputDir).log == w.log + Requests(links)
    decreases |links|
  {
    if links != [] {
      var init, link := links[..|links| - 1], links[|links| - 1];
      var before := DownloadAll(w, init, outputDir);
      DownloadAllRequests(w, init, outputDir);
      DownloadRequest(before, link, outputDir);
    }
  }

  /** Each download uses up one reply of the script. */
  lemma {:induction false} DownloadAllReplies(w: World, links: seq<string>, outputDir: string)
    ensures DownloadAll(w, links, outputDir).replies
         == if |links| <= |w.replies| then w.replies[|links|..] else []
    decreases |links|
  {
    if links != [] {
      var init, link := links[..|links| - 1], links[|links| - 1];
      var before := DownloadAll(w, init, outputDir);
      DownloadAllReplies(w, init, outputDir);
      DownloadRequest(before, link, outputDir);
    }
  }

  /** When no reply to these requests has status 200, the disk is as it was. */
  lemma {:induction false} DownloadAllFailuresKeepFiles(w: World, links: seq<string>, outputDir: string)
    requires forall i :: 0 <= i < |links| && i < |w.replies| ==> !IsOk(w.replies[i])
    ensures DownloadAll(w, links, outputDir).files == w.files
    decreases |links|
  {
    if links != [] {
      var init, link := links[..|links| - 1], links[|links| - 1];
      var before := DownloadAll(w, init, outputDir);
      DownloadAllFailuresKeepFiles(w, init, outputDir);
      DownloadAllReplies(w, init, outputDir);
      assert NextReply(before.replies) == if |init| < |w.replies| then w.replies[|init|] else Unreachable;
      DownloadFailsCleanly(before, link, outputDir);
      assert DownloadAll(w, links, outputDir) == Download(before, link, outputDir).world;
    }
  }

  /** Downloading two links is downloading the first, then the second. */
  lemma DownloadAllPair(w: World, a: string, b: string, outputDir: string)
    ensures DownloadAll(w, [a, b], outputDir)
         == Download(Download(w, a, outputDir).world, b, outputDir).world
  {
    assert [a, b][..1] == [a];
    assert [a][..0] == [];
    assert DownloadAll(w, [a], outputDir) == Download(w, a, outputDir).world;
    assert DownloadAll(w, [a, b], outputDir) == Download(DownloadAll(w, [a], outputDir), b, outputDir).world;
  }

  /** Two links with the same identifier ask twice for the same URL. */
  lemma SameIdRequests(w: World, a: string, b: string, outputDir: string)
    requires FileId(a) == FileId(b)
    ensures DownloadAll(w, [a, b], outputDir).log == w.log + [PdfUrl(FileId(a)), PdfUrl(FileId(a))]
  {
    var w1 := Download(w, a, outputDir).world;
    DownloadAllPair(w, a, b, outputDir);
    DownloadRequest(w, a, outputDir);
    DownloadRequest(w1, b, outputDir);
  }

  /** Two links with the same identifier: when both replies are 200 the second
      body silently replaces the first on disk. */
  lemma SameIdOverwrites(w: World, a: string, b: string, outputDir: string)
    requires FileId(a) == FileId(b)
    requires |w.replies| >= 2 && IsOk(w.replies[0]) && IsOk(w.replies[1])
    ensures var path := OutputPath(outputDir, FileId(a));
      var w' := DownloadAll(w, [a, b], outputDir);
      && path in w'.files
      && w'.files[path] == Concat(w.replies[1].chunks)
  {
    var w1 := Download(w, a, outputDir).world;
    DownloadAllPair(w, a, b, outputDir);
    DownloadRequest(w, a, outputDir);
    assert NextReply(w1.replies) == w.replies[1];
    DownloadEffect(w1, b, outputDir);
  }

  /** The local disk: a map from paths to file contents. */
  class FileSystem {
    var files: map<string, Bytes>

    constructor (files: map<string, Bytes>)
      ensures this.files == files
    {
      this.files := files;
    }

    /** `open(path, "wb")`: create the file, or empty it when it exists. */
    method Create(path: string)
      modifies this
      ensures files == old(files)[path := []]
    {
      files := files[path := []];
    }

    /** `f.write(data)` on a file opened for writing. */
    method Write(path: string, data: Bytes)
      requires path in files
      modifies this
      ensures files == old(files)[path := old(files)[path] + data]
    {
      files := files[path := files[path] + data];
    }
  }

  /** The scripted server behind `requests.get`. */
  class Network {
    var replies: seq<Reply>
    var log: seq<string>

    constructor (replies: seq<Reply>)
      ensures this.replies == replies && log == []
    {
      this.replies := replies;
      log := [];
    }

    /** `requests.get(url, stream=True, ...)`. */
    method Get(url: string) returns (reply: Reply)
      modifies this
      ensures reply == NextReply(old(replies))
      ensures replies == RestReplies(old(replies))
      ensures log == old(log) + [url]
    {
      reply := NextReply(replies);
      replies := RestReplies(replies);
      log := log + [url];
    }
  }

  function Snapshot(fs: FileSystem, net: Network): World
    reads fs, net
  {
    World(fs.files, net.replies, net.log)
  }

  /** The `for chunk in response.iter_content(...)` loop: each chunk is written
      to the open file in turn, so the file ends with their concatenation. */
  method WriteChunks(fs: FileSystem, path: string, chunks: seq<Bytes>)
    requires path in fs.files
    modifies fs
    ensures fs.files == old(fs.files)[path := old(fs.files)[path] + Concat(chunks)]
  {
    ghost var start := fs.files;
    assert start[path] + Concat(chunks[..0]) == start[path];
    assert start[path := start[path]] == start;
    var i := 0;
    while i < |chunks|
      invariant 0 <= i <= |chunks|
      invariant fs.files == start[path := start[path] + Concat(chunks[..i])]
    {
      assert chunks[..i + 1][..i] == chunks[..i];
      assert Concat(chunks[..i + 1]) == Concat(chunks[..i]) + chunks[i];
      fs.Write(path, chunks[i]);
      assert start[path] + Concat(chunks[..i]) + chunks[i] == start[path] + Concat(chunks[..i + 1]);
      i := i + 1;
    }
    assert chunks[..i] == chunks;
  }

  /** `descargar_pdf(file_url, output_dir)`. */
  method DownloadPdf(fs: FileSystem, net: Network, fileUrl: string, outputDir: string)
    returns (r: Option<string>)
    modifies fs, net
    ensures Outcome(r, Snapshot(fs, net)) == Download(old(Snapshot(fs, net)), fileUrl, outputDir)
  {
    ghost var before := Snapshot(fs, net);
    var fileId := FileId(fileUrl);
    var pdfUrl := PdfUrl(fileId);
    var reply := net.Get(pdfUrl);
    ghost var asked := World(before.files, net.replies, net.log);
    assert asked == before.(replies := RestReplies(before.replies), log := before.log + [pdfUrl]);
    match reply
    case Unreachable =>
      r := None;
      assert Snapshot(fs, net) == asked;
    case Response(status, chunks, interrupted) =>
      if status == 200 {
        var filePath := OutputPath(outputDir, fileId);
        fs.Create(filePath);
        WriteChunks(fs, filePath, chunks);
        assert [] + Concat(chunks) == Concat(chunks);
        assert fs.files == before.files[filePath := Concat(chunks)];
        r := if interrupted then None else Some(filePath);
        assert Snapshot(fs, net) == asked.(files := before.files[filePath := Concat(chunks)]);
      } else {
        r := None;
        assert Snapshot(fs, net) == asked;
      }
  }
}
