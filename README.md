# Inundation depth extractor — a Dafny model

The system is a Streamlit script, `app.py`. It reads an uploaded text file of
GeoTIFF URLs, one per line. For each URL it downloads the raster into a local
`downloads/` cache, unless a file of that name is already there. It then samples
up to 100000 pixels that hold a positive depth other than the raster's no-data
value, and turns each into a (longitude, latitude, depth) row. It merges those
rows into `output.csv`, dropping exact duplicates and keeping the first
occurrence.

The model follows the four pieces of logic under the user interface, one
module each. A fifth module holds the shared types.

- `Common` (`common.dfy`): `Option`, bytes, the output `Row`, the `Table` with
  its three column names, and the sequence predicates `NoDuplicates`,
  `IsPrefix` and `IsSubsequence`.
- `Fetcher` (`fetcher.dfy`): `download_file`.
  - The download folder is a `Cache` class whose `files` map from path to bytes
    is updated in place.
  - The server is a `Network` class. It fixes an answer for every URL and
    records the requests made to it.
  - The chunked write of the body is a loop over 1024-byte chunks, proved to
    write the whole body.
- `Sampler` (`sampler.dfy`): `extract_sampled_depths`.
  - The validity mask and `np.argwhere` are functions over the band as
    `seq<seq<real>>`, with `nodata: Option<real>`.
  - The draw without replacement is an injected `choice(n, k)`. It is required
    to honour the contract of `numpy.random.choice(n, k, replace=False)`: k
    distinct indices below n.
  - The pixel-to-geographic transform is a function parameter.
  - A raster that cannot be opened or read is `None`.
  - The row-building loop is a method with loop invariants.
- `Accumulator` (`accumulator.dfy`): `append_to_output_file`.
  - The persisted table is an `OutputStore` class holding
    `Option<seq<Row>>`, where `None` means no output file.
  - `drop_duplicates(keep='first')` is `Dedup`. Its element at position i
    survives exactly when it does not occur earlier.
- `UrlList` (`urllist.dfy`): the comprehension on line 70.
  - The text splits on `'\n'`.
  - Each line is stripped of what Python's `str.isspace` accepts.
  - Blank lines are dropped.
  - A round-trip lemma shows that stripped, non-blank URLs written one per line
    parse back to the same list.
- `Driver` (`driver.dfy`): the per-URL loop on lines 79-86.
  - Fetch, then sample when the fetch gave a path.
  - Merge only a non-empty sample.
  - The i-th URL samples with the random source `draws(i)`.
  - Specification functions describe the whole batch: `UploadSamples` (each
    URL's sample), `FilesAfter` (the download folder), `Requested` (the
    requests made) and `NonEmpty` (the samples that get merged).

Behaviour kept as the code has it:

- The cache check is `os.path.exists`. That is also true for the download
  folder itself and for `.` and `..` inside it. A URL whose last segment is
  empty, `.` or `..` therefore counts as cached: it returns that directory path
  without a request. Opening a directory as a raster then fails, so the sample
  is empty (`Fetcher.IsCached`, `Driver.OpenRaster`).
- Without a no-data value, numpy's `band != None` is true everywhere, so only
  positivity filters.
- `StringIO` yields lines with their `'\n'` still attached. Because `strip()`
  removes it, splitting on `'\n'` first gives the same URLs.

## Model

| member | source | states |
|---|---|---|
| Fetcher.LastSegment | app.py:19 | the name holds no `/`, is a suffix of the URL, and is either the whole URL or preceded by a `/`: exactly the part after the last `/` |
| Fetcher.LastSegmentOfJoin | app.py:19-20 | a name without `/` placed after any prefix and a `/` is derived back unchanged |
| Fetcher.Chunks | app.py:26 | every streamed chunk is non-empty and at most the chunk size |
| Fetcher.FlattenChunks | app.py:25-27 | writing the chunks in order reproduces the response body exactly |
| Fetcher.Network.Get | app.py:23 | one request for the URL is recorded and the answer is the server's answer for it |
| Fetcher.Cache.WriteChunks | app.py:25-27 | opening the path for writing and writing the chunks leaves the path holding their concatenation and every other file untouched |
| Fetcher.AfterDownloadSpec | app.py:21-28 | a download never loses or changes an existing file; afterwards the URL is cached exactly when it was cached before or answered with 200; downloading it a second time changes nothing |
| Fetcher.CachedKept | app.py:21 | a path that exists stays existing while no file is lost |
| Fetcher.Cache.DownloadFile | app.py:17-29 | on a cache hit: the cache path, no request, no file change; on a miss: exactly one request for the URL; status 200 stores the body at the cache path and returns it; any other status returns None and leaves the cache as it was; the folder afterwards is `AfterDownload` of the folder before |
| Fetcher.FetchTwice | app.py:19-22 | once a fetch yields a path, fetching the same URL again yields the same path and makes no further request |
| Sampler.RowPositions | app.py:38 | positions within one row come out on that row, in increasing column order |
| Sampler.PositionsUpTo | app.py:38 | positions of the first r rows lie in those rows, in row-major order |
| Sampler.RowPositionsMembers | app.py:37-38 | a position is listed for a row exactly when it is in that row's range and passes the validity mask |
| Sampler.PositionsUpToMembers | app.py:37-38 | a position is listed for the first r rows exactly when it is in the grid, in those rows, and passes the mask |
| Sampler.ValidPositionsSpec | app.py:37-38 | a position is valid-listed iff it is in the grid, differs from nodata (when present) and is positive; the list is row-major sorted and repeats no position |
| Sampler.ValidityExamples | app.py:37 | the mask rejects the sentinel, zero and a negative value and accepts a small positive value |
| Sampler.Pick | app.py:42 | indexing by a draw gives one position per drawn index, each a member of the valid list |
| Sampler.Sample | app.py:41-44 | the sample has min(valid count, limit) positions, each taken from the valid list |
| Sampler.SampleDistinct | app.py:41-44 | sampled positions are pairwise distinct, and at or under the limit the sample is the valid list unchanged |
| Sampler.SampledPositionsSpec | app.py:37-44 | min(valid count, limit) sampled positions, pairwise distinct, each in the grid with a value that passes the mask |
| Sampler.SampleRows | app.py:31-52 | an unreadable raster yields no rows; otherwise min(valid count, limit) rows, each with a depth that is positive and not the sentinel |
| Sampler.ExtractSampledDepths | app.py:31-52 | always the three named columns; the rows are `SampleRows` of the raster: none for an unreadable raster, otherwise one row per sampled position in sampled order, with its transformed coordinates and raw value, min(valid count, limit) rows, each depth positive and not the sentinel |
| Accumulator.Dedup | app.py:60 | deduplication never lengthens the input |
| Accumulator.DedupElements | app.py:60 | deduplication keeps exactly the elements of its input |
| Accumulator.DedupNoDuplicates | app.py:60 | no element occurs twice after deduplication |
| Accumulator.DedupSubsequence | app.py:60 | the result keeps the input's relative order |
| Accumulator.DedupPrefix | app.py:60 | the first occurrence wins: the result for a prefix of the input is a prefix of the result |
| Accumulator.DedupOfDistinct | app.py:60 | a duplicate-free input is left unchanged |
| Accumulator.DedupAbsorbs | app.py:60 | appending elements that already occur leaves the result unchanged |
| Accumulator.DedupIdempotent | app.py:60 | deduplicating twice equals deduplicating once |
| Accumulator.MergeSpec | app.py:55-60 | the merged table has no duplicate row, is a subsequence of persisted rows followed by new rows, and holds a row iff either input does |
| Accumulator.MergeKeepsPersisted | app.py:55-60 | a duplicate-free persisted table stays a prefix of the merged table |
| Accumulator.MergeSubsetUnchanged | app.py:55-60 | merging rows that are all already persisted leaves a duplicate-free table unchanged |
| Accumulator.MergeIdempotent | app.py:55-60 | merging the same rows a second time changes nothing |
| Accumulator.TwoBatchesExample | app.py:54-61 | three distinct rows, then a new row plus a repeat, give four rows in first-seen order |
| Accumulator.OutputStore.Append | app.py:54-61 | the stored table becomes the deduplicated concatenation of the old rows (none without a file) and the new rows; it has no duplicates and keeps a duplicate-free old table as its prefix |
| UrlList.TrimStart | app.py:70 | the result is a suffix, everything dropped is whitespace, and it does not start with whitespace |
| UrlList.TrimEnd | app.py:70 | the result is a prefix, everything dropped is whitespace, and it does not end with whitespace |
| UrlList.Strip | app.py:70 | the result has no surrounding whitespace, is a stretch of the line with only whitespace before and after it, and keeps every non-whitespace character |
| UrlList.TrimmedInfix | app.py:70 | cutting only whitespace from the front and then the back, until neither end is whitespace, leaves a stretch of the line without surrounding whitespace, with only whitespace around it, holding every non-whitespace character |
| UrlList.StripUnique | app.py:70 | any stretch of the line without surrounding whitespace and with only whitespace around it is the stripped line, so Strip's contract fixes its result |
| UrlList.SpacedInfixUnique | app.py:70 | two such stretches of one line are equal |
| UrlList.StripChars | app.py:70 | every character of the stripped line occurs in the line |
| UrlList.StripStripped | app.py:70 | a line without surrounding whitespace strips to itself |
| UrlList.LinesUpTo | app.py:70 | a prefix of the text always has at least one line |
| UrlList.Lines | app.py:70 | the text always has at least one line |
| UrlList.LinesUpToNoNewline | app.py:70 | no line of a prefix holds a newline, and it has one line more than the prefix has newlines |
| UrlList.LinesNoNewline | app.py:70 | no line holds a newline, and there is one line more than there are newlines |
| UrlList.LinesOfLine | app.py:70 | text without a newline is one line |
| UrlList.LinesUpToOfLine | app.py:70 | a prefix of newline-free text is one line |
| UrlList.LinesUpToAgree | app.py:70 | texts that agree on a prefix have the same lines there |
| UrlList.LinesUpToAppend | app.py:70 | the lines of s, a newline and a prefix of t are those of s followed by those of the prefix |
| UrlList.LinesAppend | app.py:70 | splitting s, a newline and t gives the lines of s followed by the lines of t |
| UrlList.StripAll | app.py:70 | one result per line; the k-th is the k-th line stripped and has no surrounding whitespace |
| UrlList.DropBlank | app.py:70 | every kept string is non-empty and taken from the input, and no more are kept than given |
| UrlList.DropBlankAppend | app.py:70 | dropping blanks from two pieces one after the other is dropping them from each, in order |
| UrlList.DropBlankMembers | app.py:70 | a string is kept exactly when it occurs in the input and is non-empty |
| UrlList.DropBlankOfNonBlank | app.py:70 | a list of non-empty strings is kept unchanged |
| UrlList.KeepNonBlank | app.py:70 | every kept line is non-empty and stripped, and no more lines are kept than given |
| UrlList.KeepNonBlankAppend | app.py:70 | keeping the non-blank lines of two pieces one after the other is keeping those of each, in order |
| UrlList.KeepNonBlankMembers | app.py:70 | every line that strips to something non-empty contributes its stripped form, and every kept URL is the stripped form of some line |
| UrlList.KeepNonBlankOne | app.py:70 | a single line keeps its stripped form unless that is empty |
| UrlList.KeepReturn | app.py:70 | a stripped URL followed by a carriage return is kept without it |
| UrlList.KeepSpaces | app.py:70 | a line of spaces is dropped |
| UrlList.KeepIndent | app.py:70 | a stripped URL indented by a space is kept without the space |
| UrlList.PaddedLinesKept | app.py:70 | a URL with a carriage return, a line of spaces and an indented URL keep exactly the two bare URLs |
| UrlList.ParseUrlListNoNewline | app.py:70 | keeping non-blank lines keeps lines without newlines |
| UrlList.ParseUrlList | app.py:70 | every parsed URL is non-empty, has no surrounding whitespace and holds no newline |
| UrlList.LinesOfJoin | app.py:70 | URLs joined one per line split back into the URLs and a final empty line |
| UrlList.ParseJoinedLines | app.py:70 | any newline-free lines written one per line parse to their stripped non-blank forms, in order |
| UrlList.PaddedLinesExample | app.py:70 | text holding a URL with a carriage return, a line of spaces and an indented URL parses to exactly the two bare URLs |
| UrlList.KeepNonBlankOfUrls | app.py:70 | stripped non-blank URLs followed by an empty line keep exactly those URLs, in order |
| UrlList.ParseJoinRoundTrip | app.py:70 | stripped, non-blank, newline-free URLs written one per line parse back to exactly that list, in order |
| Driver.MergeAllSpec | app.py:79-86 | after any number of merges the table is unchanged if none happened, else present and duplicate-free; a duplicate-free old table stays a prefix; it holds a row iff the row was persisted or in a merged batch |
| Driver.AllRowsPositive | app.py:79-86 | when every merged batch holds positive depths, so do all their rows together |
| Driver.NonEmpty | app.py:84 | every kept sample is non-empty, and there are no more than given |
| Driver.NonEmptySpec | app.py:84 | a sample is kept exactly when it is one of the samples and non-empty, and the kept ones keep their order |
| Driver.FilesAfterKeeps | app.py:79-81 | fetching a list of URLs never loses or changes an existing file |
| Driver.RequestedSpec | app.py:79-81 | every requested URL is in the list, and a URL cached before the batch is never requested |
| Driver.RequestedThenCached | app.py:79-81 | a requested URL answered with 200 is cached once the batch is done, since `download_file` stores the body |
| Driver.RequestedOnce | app.py:79-81 | a URL answered with 200 is requested at most once in a batch, however often the list repeats it |
| Driver.UploadSamples | app.py:79-83 | there is one sample per URL |
| Driver.UploadSamplesAt | app.py:79-83 | the k-th sample is what the k-th URL yields once the URLs before it were fetched |
| Driver.UrlSamplePositive | app.py:81-83 | every row one URL contributes has a positive depth |
| Driver.UploadSamplesPositive | app.py:79-83 | every sample of a batch holds only positive depths |
| Driver.UploadPositive | app.py:79-85 | all rows merged in a batch have positive depths |
| Driver.ProcessUrl | app.py:81-85 | the sample is the URL's `UrlSample` on the folder before the call: the rows sampled from the cache path when the URL was cached or answered 200, otherwise none; the table is merged with the sample exactly when it is non-empty and is unchanged otherwise; the sample's depths are positive; the folder afterwards is `AfterDownload`; one request for the URL exactly when it was not cached, none otherwise |
| Driver.ProcessUpload | app.py:70-86 | the samples are one per parsed URL, each as `UploadSamples` gives it; the merged batches are the non-empty samples in URL order; the table is the old table merged with them in order; all merged rows have positive depths; the folder is that after fetching the URLs in order; the requests made are exactly `Requested`, in order |

## Left out

- The Streamlit interface is not modelled: page setup, uploader, messages, progress bar, download button and the top-50 preview (app.py:15, 63-69, 71-77, 86-102). It is presentation only.
- The pydeck map, its `dropna` and its mean-centred view are not modelled (app.py:104-132). They are rendering and floating-point averaging.
- Real file and network I/O becomes state. `os.makedirs` is assumed to succeed, so the download folder exists. `open`/`write` update `Cache.files`. `requests.get` is `Network.Get` with a fixed answer per URL.
- Fetcher.Cache.DownloadFile: exceptions raised by `requests.get` or by writing the file are not modelled; the source does not catch them.
- `rasterio.open`/`read(1)` are a caller-supplied `decode` from file bytes to `Option<Raster>`. Any failure while opening or reading is `None`.
- `rasterio.transform.xy` is an uninterpreted function of (row, col). The affine arithmetic is floating point.
- Sampler.ExtractSampledDepths: only failures to open or read the raster lead to the empty-table path. A failure inside the transform or the loop is not modelled. The `st.error` message on that path is not modelled.
- Sampler.IsValidDepth: pixel values are exact reals, so NaN and its comparisons (a NaN sentinel never matching) are not modelled.
- `np.random.choice` is an injected function constrained to honour its contract. Nothing about the distribution of the draw is stated.
- CSV serialisation is not modelled: `output.csv` holds exact `Row` triples. The float formatting round trip through `to_csv`/`read_csv`, and reading back a table written with a header only, are not modelled.
- UTF-8 decoding of the upload is not modelled: the content is taken as already decoded characters.
- Driver.ProcessUpload: the empty-list warning is not modelled (app.py:71-72). With no URLs the loop does nothing, which the model shows.
