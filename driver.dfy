/** The pipeline driver: for every URL of the uploaded list, in order, fetch
    the raster, sample it, and merge the sample into the output table when it
    has at least one row. */
module Driver {
  import opened Common
  import opened Fetcher
  import opened Sampler
  import opened Accumulator
  import opened UrlList

  /** Opening and reading the first band of the file at `path`: only a file in
      the cache can be opened (a directory or a missing path fails), and
      `decode` says whether its bytes are a readable raster. */
  function OpenRaster(files: map<string, seq<byte>>, path: string,
                      decode: seq<byte> -> Option<Raster>): Option<Raster>
  {
    if path in files then decode(files[path]) else None
  }

  /** Every row holds a positive depth. */
  predicate PositiveDepths(rows: seq<Row>) {
    forall r :: r in rows ==> r.depth > 0.0
  }

  lemma KeepsFilesTransitive(a: map<string, seq<byte>>, b: map<string, seq<byte>>, c: map<string, seq<byte>>)
    requires KeepsFiles(a, b) && KeepsFiles(b, c)
    ensures KeepsFiles(a, c)
  {
  }

  /** All rows of a list of batches, batch after batch. */
  function AllRows(batches: seq<seq<Row>>): seq<Row> {
    if batches == [] then [] else AllRows(batches[..|batches| - 1]) + batches[|batches| - 1]
  }

  /** The output table after merging the batches one after another. */
  function MergeAll(table: Option<seq<Row>>, batches: seq<seq<Row>>): Option<seq<Row>> {
    if batches == [] then table
    else Some(Merge(MergeAll(table, batches[..|batches| - 1]), batches[|batches| - 1]))
  }

  /** After any number of merges: the table is untouched when nothing was
      merged and otherwise exists without duplicates; a duplicate-free
      persisted table stays a prefix; and the table holds a row exactly when
      it was persisted before or belongs to a merged batch. */
  lemma {:induction false} MergeAllSpec(table: Option<seq<Row>>, batches: seq<seq<Row>>)
    ensures batches == [] ==> MergeAll(table, batches) == table
    ensures batches != [] ==>
      MergeAll(table, batches).Some? && NoDuplicates(MergeAll(table, batches).value)
    ensures table.Some? && NoDuplicates(table.value) ==>
      MergeAll(table, batches).Some? && IsPrefix(table.value, MergeAll(table, batches).value)
    ensures forall x :: x in Persisted(MergeAll(table, batches)) <==>
      x in Persisted(table) || x in AllRows(batches)
    decreases |batches|
  {
    if batches != [] {
      var init := batches[..|batches| - 1];
      var last := batches[|batches| - 1];
      MergeAllSpec(table, init);
      var before := MergeAll(table, init);
      MergeSpec(before, last);
      if table.Some? && NoDuplicates(table.value) {
        assert before.Some?;
        MergeKeepsPersisted(before.value, last);
        var after := Merge(before, last);
        assert after[..|table.value|] == after[..|before.value|][..|table.value|];
      }
    }
  }

  /** Every row of a batch list has a property when each batch's rows do. */
  lemma {:induction false} AllRowsPositive(batches: seq<seq<Row>>)
    requires forall k :: 0 <= k < |batches| ==> PositiveDepths(batches[k])
    ensures PositiveDepths(AllRows(batches))
    decreases |batches|
  {
    if batches != [] {
      var init := batches[..|batches| - 1];
      AllRowsPositive(init);
      assert PositiveDepths(batches[|batches| - 1]);
    }
  }

  /** What one URL contributes: when the fetch yields a path (the URL was
      cached or answered with 200), the rows sampled from the file at that
      path after the download; otherwise nothing. */
  function UrlSample(files: map<string, seq<byte>>, url: string, respond: string -> Response,
                     decode: seq<byte> -> Option<Raster>, choice: (nat, nat) -> seq<nat>): seq<Row>
    requires IsChoiceSource(choice)
  {
    if IsCached(files, url) || respond(url).status == StatusOk then
      SampleRows(OpenRaster(AfterDownload(files, url, respond), CachePath(url), decode), SampleLimit, choice)
    else []
  }

  /** The download folder after fetching the URLs one after another. */
  function FilesAfter(files: map<string, seq<byte>>, urls: seq<string>, respond: string -> Response)
    : map<string, seq<byte>>
  {
    if urls == [] then files
    else AfterDownload(FilesAfter(files, urls[..|urls| - 1], respond), urls[|urls| - 1], respond)
  }

  /** The requests made while fetching the URLs one after another: a URL is
      requested when it is not cached at its turn. */
  function Requested(files: map<string, seq<byte>>, urls: seq<string>, respond: string -> Response)
    : seq<string>
  {
    if urls == [] then []
    else
      var init := urls[..|urls| - 1];
      var url := urls[|urls| - 1];
      Requested(files, init, respond) + (if IsCached(FilesAfter(files, init, respond), url) then [] else [url])
  }

  /** The non-empty samples, in order. */
  function NonEmpty(samples: seq<seq<Row>>): (r: seq<seq<Row>>)
    ensures forall k :: 0 <= k < |r| ==> r[k] != []
    ensures |r| <= |samples|
  {
    if samples == [] then []
    else
      var last := samples[|samples| - 1];
      NonEmpty(samples[..|samples| - 1]) + (if last == [] then [] else [last])
  }

  /** Exactly the non-empty samples are kept, in their order. */
  lemma {:induction false} NonEmptySpec(samples: seq<seq<Row>>)
    ensures forall x :: x in NonEmpty(samples) <==> x in samples && x != []
    ensures IsSubsequence(NonEmpty(samples), samples)
    decreases |samples|
  {
    if samples != [] {
      var init := samples[..|samples| - 1];
      var last := samples[|samples| - 1];
      NonEmptySpec(init);
      assert samples == init + [last];
      var r := NonEmpty(init);
      if last != [] {
        assert (r + [last])[..|r|] == r;
      } else {
        assert NonEmpty(samples) == r;
      }
    }
  }

  /** Fetching a list of URLs never loses or changes an existing file. */
  lemma {:induction false} FilesAfterKeeps(files: map<string, seq<byte>>, urls: seq<string>, respond: string -> Response)
    ensures KeepsFiles(files, FilesAfter(files, urls, respond))
    decreases |urls|
  {
    if urls != [] {
      var init := urls[..|urls| - 1];
      FilesAfterKeeps(files, init, respond);
      AfterDownloadSpec(FilesAfter(files, init, respond), urls[|urls| - 1], respond);
      KeepsFilesTransitive(files, FilesAfter(files, init, respond), FilesAfter(files, urls, respond));
    }
  }

  /** Every requested URL is in the list, and a URL cached before the batch is
      never requested. */
  lemma {:induction false} RequestedSpec(files: map<string, seq<byte>>, urls: seq<string>, respond: string -> Response)
    ensures forall u :: u in Requested(files, urls, respond) ==> u in urls
    ensures forall u :: IsCached(files, u) ==> u !in Requested(files, urls, respond)
    decreases |urls|
  {
    if urls != [] {
      var init := urls[..|urls| - 1];
      RequestedSpec(files, init, respond);
      FilesAfterKeeps(files, init, respond);
      forall u | IsCached(files, u) ensures IsCached(FilesAfter(files, init, respond), u) {
        CachedKept(files, FilesAfter(files, init, respond), u);
      }
    }
  }

  /** A requested URL answered with 200 is cached once the batch is done. */
  lemma {:induction false} RequestedThenCached(files: map<string, seq<byte>>, urls: seq<string>,
                                               respond: string -> Response, u: string)
    requires u in Requested(files, urls, respond) && respond(u).status == StatusOk
    ensures IsCached(FilesAfter(files, urls, respond), u)
    decreases |urls|
  {
    var init := urls[..|urls| - 1];
    var before := FilesAfter(files, init, respond);
    AfterDownloadSpec(before, urls[|urls| - 1], respond);
    if u in Requested(files, init, respond) {
      RequestedThenCached(files, init, respond, u);
      CachedKept(before, FilesAfter(files, urls, respond), u);
    }
  }

  /** A URL answered with 200 is requested at most once in a batch, however
      often the list repeats it: the first download caches it. */
  lemma {:induction false} RequestedOnce(files: map<string, seq<byte>>, urls: seq<string>,
                                         respond: string -> Response, u: string)
    requires respond(u).status == StatusOk
    ensures multiset(Requested(files, urls, respond))[u] <= 1
    decreases |urls|
  {
    if urls != [] {
      var init := urls[..|urls| - 1];
      var url := urls[|urls| - 1];
      var r := Requested(files, init, respond);
      var step := if IsCached(FilesAfter(files, init, respond), url) then [] else [url];
      RequestedOnce(files, init, respond, u);
      assert multiset(r + step)[u] == multiset(r)[u] + multiset(step)[u];
      if u in r {
        RequestedThenCached(files, init, respond, u);
        assert u !in step;
      } else {
        assert multiset(r)[u] == 0;
      }
    }
  }

  /** One iteration of the batch: fetch the URL, sample the raster when the
      fetch gave a path, and merge the sample when it has a row. The ghost
      result is the URL's sample, which is merged exactly when non-empty. */
  method ProcessUrl(url: string, cache: Cache, net: Network, store: OutputStore,
                    decode: seq<byte> -> Option<Raster>, choice: (nat, nat) -> seq<nat>)
    returns (ghost sample: seq<Row>)
    requires IsChoiceSource(choice)
    modifies cache, net, store
    ensures sample == UrlSample(old(cache.files), url, net.respond, decode, choice)
    ensures store.table == if sample == [] then old(store.table) else Some(Merge(old(store.table), sample))
    ensures PositiveDepths(sample)
    ensures cache.files == AfterDownload(old(cache.files), url, net.respond)
    ensures net.requests == old(net.requests) + (if IsCached(old(cache.files), url) then [] else [url])
  {
    sample := [];
    var path := cache.DownloadFile(url, net);
    if path.Some? {
      var raster := OpenRaster(cache.files, path.value, decode);
      var df := ExtractSampledDepths(raster, SampleLimit, choice);
      sample := df.rows;
      if df.rows != [] {
        store.Append(df.rows);
      }
    }
  }

  /** The sample of each URL of a batch, in order, each taken with the
      download folder as the URLs before it left it and with the random source
      of its index. */
  function UploadSamples(files: map<string, seq<byte>>, urls: seq<string>, respond: string -> Response,
                         decode: seq<byte> -> Option<Raster>, draws: nat -> (nat, nat) -> seq<nat>)
    : (samples: seq<seq<Row>>)
    requires forall i :: IsChoiceSource(draws(i))
    ensures |samples| == |urls|
  {
    if urls == [] then []
    else
      var init := urls[..|urls| - 1];
      UploadSamples(files, init, respond, decode, draws)
      + [UrlSample(FilesAfter(files, init, respond), urls[|urls| - 1], respond, decode, draws(|urls| - 1))]
  }

  /** The k-th sample of a batch is what the k-th URL yields after the URLs
      before it were fetched. */
  lemma {:induction false} UploadSamplesAt(files: map<string, seq<byte>>, urls: seq<string>, k: nat, respond: string -> Response,
                                           decode: seq<byte> -> Option<Raster>, draws: nat -> (nat, nat) -> seq<nat>)
    requires forall i :: IsChoiceSource(draws(i))
    requires k < |urls|
    ensures UploadSamples(files, urls, respond, decode, draws)[k]
      == UrlSample(FilesAfter(files, urls[..k], respond), urls[k], respond, decode, draws(k))
    decreases |urls|
  {
    var n := |urls| - 1;
    var init := urls[..n];
    if k < n {
      UploadSamplesAt(files, init, k, respond, decode, draws);
      assert init[..k] == urls[..k];
      assert init[k] == urls[k];
    } else {
      assert urls[..k] == init;
    }
  }

  /** Every row a URL contributes has a positive depth. */
  lemma UrlSamplePositive(files: map<string, seq<byte>>, url: string, respond: string -> Response,
                          decode: seq<byte> -> Option<Raster>, choice: (nat, nat) -> seq<nat>)
    requires IsChoiceSource(choice)
    ensures PositiveDepths(UrlSample(files, url, respond, decode, choice))
  {
    var s := UrlSample(files, url, respond, decode, choice);
    forall r | r in s ensures r.depth > 0.0 {
      var k :| 0 <= k < |s| && s[k] == r;
    }
  }

  /** Every sample of a batch holds only positive depths. */
  lemma {:induction false} UploadSamplesPositive(files: map<string, seq<byte>>, urls: seq<string>, respond: string -> Response,
                                                 decode: seq<byte> -> Option<Raster>, draws: nat -> (nat, nat) -> seq<nat>)
    requires forall i :: IsChoiceSource(draws(i))
    ensures forall k :: 0 <= k < |UploadSamples(files, urls, respond, decode, draws)| ==>
      PositiveDepths(UploadSamples(files, urls, respond, decode, draws)[k])
    decreases |urls|
  {
    if urls != [] {
      var init := urls[..|urls| - 1];
      UploadSamplesPositive(files, init, respond, decode, draws);
      UrlSamplePositive(FilesAfter(files, init, respond), urls[|urls| - 1], respond, decode, draws(|urls| - 1));
    }
  }

  /** The samples merged in a batch hold only positive depths. */
  lemma UploadPositive(files: map<string, seq<byte>>, urls: seq<string>, respond: string -> Response,
                       decode: seq<byte> -> Option<Raster>, draws: nat -> (nat, nat) -> seq<nat>)
    requires forall i :: IsChoiceSource(draws(i))
    ensures PositiveDepths(AllRows(NonEmpty(UploadSamples(files, urls, respond, decode, draws))))
  {
    var samples := UploadSamples(files, urls, respond, decode, draws);
    var merged := NonEmpty(samples);
    NonEmptySpec(samples);
    UploadSamplesPositive(files, urls, respond, decode, draws);
    forall k | 0 <= k < |merged| ensures PositiveDepths(merged[k]) {
      assert merged[k] in samples;
    }
    AllRowsPositive(merged);
  }

  /** The facts about the URL prefixes one loop iteration moves between. */
  lemma UploadStep(files: map<string, seq<byte>>, urls: seq<string>, i: nat, respond: string -> Response,
                   decode: seq<byte> -> Option<Raster>, draws: nat -> (nat, nat) -> seq<nat>)
    requires i < |urls|
    requires forall i :: IsChoiceSource(draws(i))
    ensures UploadSamples(files, urls[..i + 1], respond, decode, draws) ==
      UploadSamples(files, urls[..i], respond, decode, draws)
      + [UrlSample(FilesAfter(files, urls[..i], respond), urls[i], respond, decode, draws(i))]
    ensures FilesAfter(files, urls[..i + 1], respond) == AfterDownload(FilesAfter(files, urls[..i], respond), urls[i], respond)
    ensures Requested(files, urls[..i + 1], respond) ==
      Requested(files, urls[..i], respond) + (if IsCached(FilesAfter(files, urls[..i], respond), urls[i]) then [] else [urls[i]])
  {
    assert urls[..i + 1][..i] == urls[..i];
  }

  /** One more sample extends the non-empty ones by it when it is non-empty. */
  lemma NonEmptySnoc(samples: seq<seq<Row>>, x: seq<Row>)
    ensures NonEmpty(samples + [x]) == NonEmpty(samples) + (if x == [] then [] else [x])
  {
    assert (samples + [x])[..|samples|] == samples;
  }

  /** Merging one more batch merges it into the table the earlier ones left. */
  lemma MergeAllSnoc(table: Option<seq<Row>>, batches: seq<seq<Row>>, x: seq<Row>)
    ensures MergeAll(table, batches + [x]) == Some(Merge(MergeAll(table, batches), x))
  {
    assert (batches + [x])[..|batches|] == batches;
  }

  /** Appending two logs one after the other appends their concatenation. */
  lemma AppendAssoc(a: seq<string>, b: seq<string>, c: seq<string>)
    ensures a + b + c == a + (b + c)
  {
  }

  /** Processes an uploaded URL list. `draws(i)` is the random source the i-th
      URL's sampling draws from. The ghost results: `samples` holds each URL's
      sample, `merged` the non-empty ones, which are merged into the table in
      URL order. The download folder and the requests are those of fetching
      the URLs one after another. */
  method ProcessUpload(content: string, cache: Cache, net: Network, store: OutputStore,
                       decode: seq<byte> -> Option<Raster>, draws: nat -> (nat, nat) -> seq<nat>)
    returns (ghost samples: seq<seq<Row>>, ghost merged: seq<seq<Row>>)
    requires forall i :: IsChoiceSource(draws(i))
    modifies cache, net, store
    ensures samples == UploadSamples(old(cache.files), ParseUrlList(content), net.respond, decode, draws)
    ensures merged == NonEmpty(samples)
    ensures store.table == MergeAll(old(store.table), merged)
    ensures PositiveDepths(AllRows(merged))
    ensures cache.files == FilesAfter(old(cache.files), ParseUrlList(content), net.respond)
    ensures net.requests == old(net.requests) + Requested(old(cache.files), ParseUrlList(content), net.respond)
  {
    var urls := ParseUrlList(content);
    samples, merged := [], [];
    for i := 0 to |urls|
      invariant samples == UploadSamples(old(cache.files), urls[..i], net.respond, decode, draws)
      invariant merged == NonEmpty(samples)
      invariant store.table == MergeAll(old(store.table), merged)
      invariant cache.files == FilesAfter(old(cache.files), urls[..i], net.respond)
      invariant net.requests == old(net.requests) + Requested(old(cache.files), urls[..i], net.respond)
    {
      UploadStep(old(cache.files), urls, i, net.respond, decode, draws);
      ghost var filesBefore := cache.files;
      ghost var done := Requested(old(cache.files), urls[..i], net.respond);
      ghost var step := if IsCached(filesBefore, urls[i]) then [] else [urls[i]];
      var sample := ProcessUrl(urls[i], cache, net, store, decode, draws(i));
      AppendAssoc(old(net.requests), done, step);
      NonEmptySnoc(samples, sample);
      samples := samples + [sample];
      if sample != [] {
        MergeAllSnoc(old(store.table), merged, sample);
        merged := merged + [sample];
      }
    }
    assert urls[..|urls|] == urls;
    UploadPositive(old(cache.files), urls, net.respond, decode, draws);
  }
}
