# arXiv PDF scraper — a verified model of its core

The script `arxiv_pdf_scraper.py` searches arXiv in a browser, reads the
`href` of every PDF link on the result page, downloads each paper with
`descargar_pdf`, and appends the links to `articles_arxiv.csv` with
`guardar_en_csv`. This project models the deterministic part of that pipeline
in Dafny and proves what it does:

- `ArxivIds` (`arxiv_ids.dfy`): Python's `str.split` and `str.join` for a one-character
  separator, the paper identifier `file_url.split("/")[-1]`, the download URL
  `https://arxiv.org/pdf/<id>.pdf`, and the output path `os.path.join(output_dir, "<id>.pdf")`.
  This module only computes values.
- `Downloads` (`downloads.dfy`): one call of `descargar_pdf`. The network and the disk are
  objects. `Network` is a scripted server: a queue of replies handed out one per
  request, plus a log of the requested URLs. `FileSystem` is a map from paths to bytes.
  `DownloadPdf` runs the source's steps against them; the loop that writes the chunks
  is the method `WriteChunks`. `DownloadPdf` is proved equal to the function `Download` on a `World` snapshot of
  both objects. `DownloadAll` is the same function applied to each link in turn.
- `LinkList` (`link_list.dfy`): the list file as a sequence of rows. `SaveToCsv` is the
  append loop of `guardar_en_csv`.
- `Scraper` (`scraper.dfy`): the loop of `scrape_arxiv` that keeps truthy `href`s and
  downloads each one, and a whole run (`ScrapeArxiv`).

A reply has two constructors; a `Response` may be `interrupted`. `Unreachable` means `requests.get` raised a
`RequestException`. `Response(status, chunks, interrupted)` is a response; when
`interrupted` holds, reading the body raised a `RequestException` after the listed
chunks had arrived. The source opens the output file inside its `try`, so in that
case the chunks already written stay on disk and the function returns `None`. The
model keeps that partial file. A script with no replies left answers `Unreachable`.

`os.path.join` is the standard library's. It is modelled as `posixpath.join` with
two arguments (`PathJoin`). The file name never starts with `/`, because an
identifier holds no `/` (`FileIdWithoutSlash`).

## Model

| member | source | states |
|---|---|---|
| ArxivIds.Split | arxiv_pdf_scraper.py:26 | `split("/")` yields one more piece than there are separators, and no piece holds the separator |
| ArxivIds.SplitJoin | arxiv_pdf_scraper.py:26 | joining the pieces of a split with the separator gives the original string back |
| ArxivIds.JoinSplit | arxiv_pdf_scraper.py:26 | splitting a join of separator-free pieces gives the pieces back (the other direction of the round trip) |
| ArxivIds.LastOfSplit | arxiv_pdf_scraper.py:26 | the last piece of a split is the suffix after the last `/`, or the whole string when there is no `/` |
| ArxivIds.FileId | arxiv_pdf_scraper.py:26 | the identifier is a `/`-free suffix of the link that is either the whole link or preceded by `/` |
| ArxivIds.FileIdIsLastSegment | arxiv_pdf_scraper.py:26 | that characterisation determines the identifier: any suffix meeting it equals `FileId` |
| ArxivIds.FileIdWithoutSlash | arxiv_pdf_scraper.py:26 | an identifier never contains `/`; a link without `/` is its own identifier |
| ArxivIds.ExampleLink | arxiv_pdf_scraper.py:26-27 | the identifier of `https://arxiv.org/pdf/2301.04567` is `2301.04567` |
| ArxivIds.ExampleDownload | arxiv_pdf_scraper.py:30 | for `2301.04567` the download URL is `https://arxiv.org/pdf/2301.04567.pdf` and the file is `data/2301.04567.pdf` |
| ArxivIds.PdfUrl | arxiv_pdf_scraper.py:30 | the download URL is exactly `https://arxiv.org/pdf/`, then the identifier, then `.pdf`: length, prefix, suffix and the middle are all fixed |
| ArxivIds.PdfUrlRoundTrip | arxiv_pdf_scraper.py:30 | every download URL starts with `https://arxiv.org/pdf/`, ends with `.pdf`, and the identifier reads back out of it |
| ArxivIds.IdOfPdfUrlSound | arxiv_pdf_scraper.py:30 | a URL from which an identifier reads back is exactly that identifier's download URL |
| ArxivIds.PathJoin | arxiv_pdf_scraper.py:40 | `os.path.join(dir, name)` (POSIX): the name always ends the path; an absolute name is the whole path; otherwise the directory comes first and the name follows a `/` whenever the directory is non-empty, one `/` being added only when the directory does not already end in `/` |
| ArxivIds.OutputPath | arxiv_pdf_scraper.py:40 | the output path always ends with `<id>.pdf` |
| ArxivIds.OutputPathJoin | arxiv_pdf_scraper.py:40 | for a `/`-free identifier the path is `dir + "<id>.pdf"` or `dir + "/" + "<id>.pdf"`, the second exactly when the directory is non-empty and does not end in `/` |
| ArxivIds.OutputPathName | arxiv_pdf_scraper.py:40 | the last segment of the output path is `<id>.pdf` |
| Downloads.ConcatAppend | arxiv_pdf_scraper.py:48-49 | writing the chunks in two batches gives the same bytes as writing them all in order |
| Downloads.ConcatEmpty | arxiv_pdf_scraper.py:48-49 | the written file is empty exactly when every chunk is empty |
| Downloads.Download | arxiv_pdf_scraper.py:17-58 | one call of `descargar_pdf` on a snapshot of disk and network: a returned path is always a file on disk, no file is ever removed, and the only file that can appear is `<dir>/<id>.pdf` |
| Downloads.DownloadSucceeds | arxiv_pdf_scraper.py:37-52 | the result is a path exactly when the reply is a 200 whose body arrived whole; that path is `<dir>/<id>.pdf` and holds the chunks in order |
| Downloads.DownloadFailsCleanly | arxiv_pdf_scraper.py:53-58 | on any status but 200, or when the request raises, the result is None and no file changes |
| Downloads.DownloadRequest | arxiv_pdf_scraper.py:26-38 | one call requests the canonical URL `https://arxiv.org/pdf/<id>.pdf` exactly once and uses up exactly one reply |
| Downloads.DownloadEffect | arxiv_pdf_scraper.py:39-49 | the disk changes only on status 200, and then only at `<dir>/<id>.pdf`, whose old content is replaced by the chunks |
| Downloads.DownloadFrame | arxiv_pdf_scraper.py:40-49 | no path other than `<dir>/<id>.pdf` is created, removed or changed |
| Downloads.FileSystem.Create | arxiv_pdf_scraper.py:41 | opening with `"wb"` creates the file or empties it |
| Downloads.FileSystem.Write | arxiv_pdf_scraper.py:49 | a write appends the chunk to the open file and changes nothing else |
| Downloads.Network.Get | arxiv_pdf_scraper.py:38 | a request logs its URL and consumes the next scripted reply |
| Downloads.DownloadPdf | arxiv_pdf_scraper.py:17-58 | the result and the new disk and network state are those that `Download` gives for the old state |
| Downloads.WriteChunks | arxiv_pdf_scraper.py:48-50 | after the write loop the open file holds what it held before followed by every chunk in order; no other file changes |
| Downloads.DownloadAll | arxiv_pdf_scraper.py:115-122 | downloading each link in turn adds exactly one logged request per link after the old log and never removes a file |
| Downloads.DownloadAllPair | arxiv_pdf_scraper.py:115-122 | downloading two links is downloading the first and then the second on the resulting state |
| Downloads.DownloadAllSnoc | arxiv_pdf_scraper.py:115-122 | downloading one more link is one more download on the state the earlier links left |
| Downloads.DownloadAllRequests | arxiv_pdf_scraper.py:115-122 | downloading a list of links requests each link's download URL exactly once, in list order |
| Downloads.DownloadAllReplies | arxiv_pdf_scraper.py:115-122 | each download consumes exactly one reply |
| Downloads.DownloadAllFailuresKeepFiles | arxiv_pdf_scraper.py:53-58 | when no reply is a 200, the downloads leave the disk exactly as it was and the run goes on |
| Downloads.SameIdRequests | arxiv_pdf_scraper.py:26-38 | two links with the same identifier are both requested, at the same download URL |
| Downloads.SameIdOverwrites | arxiv_pdf_scraper.py:40-49 | for two links with the same identifier whose replies are both 200, the second body silently replaces the first at the shared path |
| LinkList.RowsOf | arxiv_pdf_scraper.py:71-72 | there is one row per link, and row `i` is the single field `links[i]` |
| LinkList.Appended | arxiv_pdf_scraper.py:69-72 | appending keeps the old rows unchanged in front and adds one single-field row per link after them, in order |
| LinkList.RowsOfAppend | arxiv_pdf_scraper.py:71-72 | appending two batches of links writes what one batch of both would |
| LinkList.AppendTwice | arxiv_pdf_scraper.py:69-72 | saving the same links twice duplicates them, so saving is idempotent only for an empty list |
| LinkList.RowsWritten | arxiv_pdf_scraper.py:68-75 | without a fault every row is written; with a fault at row `k` at most `k` rows are written, never more than there are links |
| LinkList.SaveToCsv | arxiv_pdf_scraper.py:61-75 | the rows become the old rows plus one row per link; a refused write is caught, leaving the rows written before it |
| Scraper.KeptLinks | arxiv_pdf_scraper.py:115-119 | the kept links (those passing `Truthy`, the `if href:` test of line 118: present and not empty) are never empty strings and are at most as many as the elements |
| Scraper.KeptLinksAppend | arxiv_pdf_scraper.py:115-119 | the filter works piece by piece, so kept links keep their page order |
| Scraper.KeptLinksMembership | arxiv_pdf_scraper.py:117-118 | a link is kept exactly when some element has it as a non-empty `href` |
| Scraper.KeptLinksAll | arxiv_pdf_scraper.py:117-119 | nothing is dropped exactly when every element has a non-empty `href`; the links are then those `href`s |
| Scraper.CollectAndDownload | arxiv_pdf_scraper.py:110-122 | the collected list is the truthy `href`s in page order, each is downloaded once in that order, and the state is `DownloadAll` of it |
| Scraper.ScrapeArxiv | arxiv_pdf_scraper.py:82-125 | a timed-out wait changes nothing; otherwise the downloads happen, then the kept links are appended to the list file |

## Left out

- Browser control (launching Firefox, navigating, filling in the search term, clicking, the 5-second wait, the screenshot, `page.title()`, closing) is not modelled. The page is an input: the `href` of each matching element, or `None` when the wait timed out. The search term therefore does not appear.
- The HTTP client is a scripted server (`Network`). The user-agent header, the 10-second timeout and the 1024-byte chunk size are not modelled. Which exceptions count as a `RequestException` is decided by the reply the script gives.
- The `tqdm` progress bar is display only, and is not modelled. The `int(...)` of its `content-length` header could raise a `ValueError` that `descargar_pdf` does not catch; that case is not modelled either.
- An error while opening or writing the output file, such as a missing directory or a full disk (`OSError` from `f.write` at line 49), is not a `RequestException` and would escape `descargar_pdf`. Any exception escaping `descargar_pdf` ends `scrape_arxiv` before `guardar_en_csv` runs, so no rows are written for that run. The model's `FileSystem` never fails, so these aborted runs are not modelled. `os.makedirs(DATA_DIR)` at import time and all `print` logging are I/O with no effect on the modelled state.
- `guardar_en_csv` quoting and line endings belong to Python's `csv` module. A row is modelled as its list of fields. The file's path (`CSV_FILE`) is implicit in the `CsvFile` object.
- SaveToCsv: the point where writing fails is an input (`fault`, the index of the first refused row). Buffering may make the real file hold fewer rows than were handed to the writer; the model keeps every row before the fault.
- `os.path.join` follows POSIX rules only. Windows path joining is not modelled.
