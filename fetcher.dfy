/** The fetcher: resolves a URL to a file in the local download cache,
    downloading it only when no entry of the derived name exists yet. */
module Fetcher {
  import opened Common

  const DownloadFolder: string := "downloads"

  /** Size of the pieces in which a streamed response body arrives. */
  const ChunkSize: nat := 1024

  /** The only HTTP status treated as success. */
  const StatusOk: int := 200

  /** What the server answers for one request: status code and body. */
  datatype Response = Response(status: int, body: seq<byte>)

  /** The URL's final `/`-separated segment (the whole URL when it has no `/`).
      The three ensures clauses pin the segment down: it is a suffix, it has no
      `/`, and it is either the whole URL or preceded by a `/`. */
  function LastSegment(url: string): (name: string)
    ensures '/' !in name
    ensures |name| <= |url| && name == url[|url| - |name|..]
    ensures |name| < |url| ==> url[|url| - |name| - 1] == '/'
  {
    if url == [] then []
    else if url[|url| - 1] == '/' then []
    else LastSegment(url[..|url| - 1]) + [url[|url| - 1]]
  }

  /** The cache path of a URL: the download folder joined with its last segment. */
  function CachePath(url: string): string {
    DownloadFolder + "/" + LastSegment(url)
  }

  /** Names that, joined to the download folder, denote a directory rather
      than a file: the folder itself (empty name), `.` and `..`. */
  predicate IsDirectoryName(name: string) {
    |name| <= 2 && forall k :: 0 <= k < |name| ==> name[k] == '.'
  }

  /** Whether the cache path of a URL already exists on disk, given the files
      held in the download folder: a file of that path, or a directory. */
  predicate IsCached(files: map<string, seq<byte>>, url: string) {
    CachePath(url) in files || IsDirectoryName(LastSegment(url))
  }

  /** Every file of `before` is still in `after` with the same content. */
  predicate KeepsFiles(before: map<string, seq<byte>>, after: map<string, seq<byte>>) {
    forall p :: p in before ==> p in after && after[p] == before[p]
  }

  /** The files of the download folder after fetching `url` from a server
      answering `respond`: a new file at the cache path exactly when the path
      did not exist and the answer was 200. */
  function AfterDownload(files: map<string, seq<byte>>, url: string, respond: string -> Response)
    : map<string, seq<byte>>
  {
    if IsCached(files, url) || respond(url).status != StatusOk then files
    else files[CachePath(url) := respond(url).body]
  }

  /** A download never loses or changes an existing file; afterwards the URL
      is cached when it was before or was answered with 200, and is cached
      exactly then; downloading it again changes nothing. */
  lemma AfterDownloadSpec(files: map<string, seq<byte>>, url: string, respond: string -> Response)
    ensures KeepsFiles(files, AfterDownload(files, url, respond))
    ensures IsCached(AfterDownload(files, url, respond), url) <==>
      IsCached(files, url) || respond(url).status == StatusOk
    ensures AfterDownload(AfterDownload(files, url, respond), url, respond) == AfterDownload(files, url, respond)
  {
  }

  /** A path that exists stays existing while no file is removed. */
  lemma CachedKept(before: map<string, seq<byte>>, after: map<string, seq<byte>>, url: string)
    requires KeepsFiles(before, after) && IsCached(before, url)
    ensures IsCached(after, url)
  {
  }

  /** The body cut into the pieces a streamed download delivers, in order. */
  function Chunks(body: seq<byte>, size: nat): (cs: seq<seq<byte>>)
    requires size > 0
    ensures forall k :: 0 <= k < |cs| ==> 0 < |cs[k]| <= size
    decreases |body|
  {
    if body == [] then []
    else if |body| <= size then [body]
    else [body[..size]] + Chunks(body[size..], size)
  }

  /** The concatenation of a sequence of chunks. */
  function Flatten(cs: seq<seq<byte>>): seq<byte> {
    if cs == [] then [] else Flatten(cs[..|cs| - 1]) + cs[|cs| - 1]
  }

  lemma FlattenSnoc(cs: seq<seq<byte>>, k: nat)
    requires k < |cs|
    ensures Flatten(cs[..k + 1]) == Flatten(cs[..k]) + cs[k]
  {
    assert cs[..k + 1][..k] == cs[..k];
  }

  lemma {:induction false} FlattenCons(c: seq<byte>, cs: seq<seq<byte>>)
    ensures Flatten([c] + cs) == c + Flatten(cs)
    decreases |cs|
  {
    if cs != [] {
      var init := cs[..|cs| - 1];
      assert ([c] + cs)[..|cs|] == [c] + init;
      FlattenCons(c, init);
    }
  }

  /** Writing the chunks one after another reproduces the whole body. */
  lemma {:induction false} FlattenChunks(body: seq<byte>, size: nat)
    requires size > 0
    ensures Flatten(Chunks(body, size)) == body
    decreases |body|
  {
    if body == [] {
    } else if |body| <= size {
      assert Flatten([body]) == Flatten([]) + body;
    } else {
      FlattenChunks(body[size..], size);
      FlattenCons(body[..size], Chunks(body[size..], size));
      assert body[..size] + body[size..] == body;
    }
  }

  /** A name without `/` placed after any prefix and a `/` is what the cache
      derives back from that URL. */
  lemma {:induction false} LastSegmentOfJoin(prefix: string, name: string)
    requires '/' !in name
    ensures LastSegment(prefix + "/" + name) == name
    decreases |name|
  {
    var url := prefix + "/" + name;
    if name == [] {
      assert url[|url| - 1] == '/';
    } else {
      var init := name[..|name| - 1];
      assert url[..|url| - 1] == prefix + "/" + init;
      assert url[|url| - 1] == name[|name| - 1];
      LastSegmentOfJoin(prefix, init);
      assert init + [name[|name| - 1]] == name;
    }
  }

  /** The remote server, seen through the requests made to it. */
  class Network {
    /** The answer the server gives for each URL. */
    const respond: string -> Response
    /** Every URL requested so far, in order. */
    var requests: seq<string>

    constructor (respond: string -> Response)
      ensures this.respond == respond && requests == []
    {
      this.respond := respond;
      requests := [];
    }

    /** A streamed GET request. */
    method Get(url: string) returns (r: Response)
      modifies this
      ensures requests == old(requests) + [url]
      ensures r == respond(url)
    {
      requests := requests + [url];
      r := respond(url);
    }
  }

  /** The download folder: the files it holds, keyed by path. */
  class Cache {
    var files: map<string, seq<byte>>

    constructor (files: map<string, seq<byte>>)
      ensures this.files == files
    {
      this.files := files;
    }

    /** Opens `path` for writing (emptying it) and writes the chunks in order. */
    method WriteChunks(path: string, chunks: seq<seq<byte>>)
      modifies this
      ensures files == old(files)[path := Flatten(chunks)]
    {
      files := files[path := []];
      for k := 0 to |chunks|
        invariant files == old(files)[path := Flatten(chunks[..k])]
      {
        FlattenSnoc(chunks, k);
        files := files[path := files[path] + chunks[k]];
      }
      assert chunks[..|chunks|] == chunks;
    }

    /** Returns the cache path of the URL when it already exists, without any
        request. Otherwise requests the URL once: on status 200 it writes the
        body chunk by chunk to that path and returns the path; on any other
        status it returns None and the cache is left as it was. */
    method DownloadFile(url: string, net: Network) returns (path: Option<string>)
      modifies this, net
      ensures IsCached(old(files), url) ==>
        path == Some(CachePath(url)) && files == old(files) && net.requests == old(net.requests)
      ensures !IsCached(old(files), url) ==> net.requests == old(net.requests) + [url]
      ensures !IsCached(old(files), url) && net.respond(url).status == StatusOk ==>
        path == Some(CachePath(url)) && files == old(files)[CachePath(url) := net.respond(url).body]
      ensures !IsCached(old(files), url) && net.respond(url).status != StatusOk ==>
        path == None && files == old(files)
      ensures files == AfterDownload(old(files), url, net.respond)
    {
      var filepath := CachePath(url);
      if IsCached(files, url) {
        return Some(filepath);
      }
      var response := net.Get(url);
      if response.status == StatusOk {
        WriteChunks(filepath, Chunks(response.body, ChunkSize));
        FlattenChunks(response.body, ChunkSize);
        return Some(filepath);
      }
      return None;
    }
  }

  /** Fetching the same URL twice: once the first call yields a path, the
      second call returns that same path and makes no request of its own. */
  method FetchTwice(cache: Cache, net: Network, url: string)
    returns (first: Option<string>, second: Option<string>)
    modifies cache, net
    ensures first.Some? ==> second == first
    ensures first.Some? ==>
      net.requests == old(net.requests) +
        (if IsCached(old(cache.files), url) then [] else [url])
  {
    first := cache.DownloadFile(url, net);
    second := cache.DownloadFile(url, net);
  }
}
