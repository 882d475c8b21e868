/**
 * `scrape_arxiv`: after the search, take the `href` of every result link in
 * page order, keep the truthy ones, download each kept link as soon as it is
 * kept, and finally append the kept links to the list file.
 *
 * The browser is an outside collaborator: the page's result links come in as
 * the `href` attribute of each matching element (`None` when the element has
 * none), or as `None` altogether when the wait for the results timed out.
 */
module Scraper {
  import opened Wrappers
  import opened Downloads
  import opened LinkList

  /** `DATA_DIR`: where the papers are stored. */
  const DataDir: string := "data"

  /** Python truthiness of an attribute value: present and not empty. */
  predicate Truthy(href: Option<string>)
  {
    href.Some? && href.value != ""
  }

  /** The links the loop keeps, in page order. */
  function KeptLinks(hrefs: seq<Option<string>>): (links: seq<string>)
    ensures |links| <= |hrefs|
    ensures forall i :: 0 <= i < |links| ==> links[i] != ""
  {
    if hrefs == [] then []
    else
      var init := KeptLinks(hrefs[..|hrefs| - 1]);
      if Truthy(hrefs[|hrefs| - 1]) then init + [hrefs[|hrefs| - 1].value] else init
  }

  /** The filter works piece by piece, so links keep their relative page order. */
  lemma {:induction false} KeptLinksAppend(a: seq<Option<string>>, b: seq<Option<string>>)
    ensures KeptLinks(a + b) == KeptLinks(a) + KeptLinks(b)
    decreases |b|
  {
    if b == [] {
      assert a + b == a;
    } else {
      var init := b[..|b| - 1];
      assert (a + b)[..|a + b| - 1] == a + init;
      KeptLinksAppend(a, init);
    }
  }

  /** A link is kept exactly when some element has it as a non-empty `href`. */
  lemma {:induction false} KeptLinksMembership(hrefs: seq<Option<string>>, link: string)
    ensures link in KeptLinks(hrefs) <==> link != "" && Some(link) in hrefs
    decreases |hrefs|
  {
    if hrefs != [] {
      var init := hrefs[..|hrefs| - 1];
      KeptLinksMembership(init, link);
      assert hrefs == init + [hrefs[|hrefs| - 1]];
    }
  }

  /** Nothing is dropped exactly when every element has a non-empty `href`,
      and then the links are the `href`s themselves. */
  lemma {:induction false} KeptLinksAll(hrefs: seq<Option<string>>)
    ensures |KeptLinks(hrefs)| == |hrefs| <==> forall i :: 0 <= i < |hrefs| ==> Truthy(hrefs[i])
    ensures |KeptLinks(hrefs)| == |hrefs| ==>
              forall i :: 0 <= i < |hrefs| ==> KeptLinks(hrefs)[i] == hrefs[i].value
    decreases |hrefs|
  {
    if hrefs != [] {
      var init := hrefs[..|hrefs| - 1];
      KeptLinksAll(init);
      assert forall i :: 0 <= i < |init| ==> init[i] == hrefs[i];
    }
  }

  /** The loop of `scrape_arxiv` over the result links: keep each truthy
      `href` and download it at once into `outputDir`. */
  method CollectAndDownload(fs: FileSystem, net: Network, hrefs: seq<Option<string>>, outputDir: string)
    returns (pdfLinks: seq<string>)
    modifies fs, net
    ensures pdfLinks == KeptLinks(hrefs)
    ensures Snapshot(fs, net) == DownloadAll(old(Snapshot(fs, net)), pdfLinks, outputDir)
    ensures net.log == old(net.log) + Requests(pdfLinks)
  {
    ghost var start := Snapshot(fs, net);
    pdfLinks := [];
    var i := 0;
    while i < |hrefs|
      invariant 0 <= i <= |hrefs|
      invariant pdfLinks == KeptLinks(hrefs[..i])
      invariant Snapshot(fs, net) == DownloadAll(start, pdfLinks, outputDir)
    {
      assert hrefs[..i + 1][..i] == hrefs[..i];
      var href := hrefs[i];
      if Truthy(href) {
        ghost var mid := Snapshot(fs, net);
        var _ := DownloadPdf(fs, net, href.value, outputDir);
        assert Snapshot(fs, net) == Download(mid, href.value, outputDir).world;
        DownloadAllSnoc(start, pdfLinks, href.value, outputDir);
        pdfLinks := pdfLinks + [href.value];
      }
      i := i + 1;
    }
    assert hrefs[..i] == hrefs;
    DownloadAllRequests(start, pdfLinks, outputDir);
  }

  /** A whole run of `scrape_arxiv`.  `results` is what the browser found, or
      `None` when the wait for result links timed out: that error ends the run
      before anything is downloaded or saved.  `csvFault` says which row of the
      list file the disk refuses, if any. */
  method ScrapeArxiv(fs: FileSystem, net: Network, csv: CsvFile,
                     results: Option<seq<Option<string>>>, csvFault: Option<nat>)
    returns (completed: bool)
    modifies fs, net, csv
    ensures completed == results.Some?
    ensures !completed ==> Snapshot(fs, net) == old(Snapshot(fs, net)) && csv.rows == old(csv.rows)
    ensures completed ==>
      var links := KeptLinks(results.value);
      && Snapshot(fs, net) == DownloadAll(old(Snapshot(fs, net)), links, DataDir)
      && net.log == old(net.log) + Requests(links)
      && csv.rows == Appended(old(csv.rows), links[..RowsWritten(|links|, csvFault)])
  {
    if results.None? {
      return false;
    }
    var pdfLinks := CollectAndDownload(fs, net, results.value, DataDir);
    SaveToCsv(csv, pdfLinks, csvFault);
    completed := true;
  }
}
