/** The chunked download orchestrator `Service.DownloadFile` and the HTTP
    repository it asks for the size and the chunks. The network exchange is an
    oracle: the Content-Range header a `bytes=0-0` probe gets back, and the body
    a `bytes=first-last` request gets back. The fetch tasks run concurrently in
    the code; here they run one after another in index order, which gives the
    same store because each task writes its own path (see
    `DownloadProperties.FetchPhaseAnyOrder`). */
module Downloader {
  import opened Base
  import opened GoText
  import opened Chunking
  import opened Storage

  // ---------------------------------------------------------------------
  // The repository: HttpDownloader

  /** `HttpDownloader` with its network exchange as two oracles.
      `contentRange(url)`: the Content-Range header value of the response to a
      GET of `url` with `Range: bytes=0-0` (empty when the header is absent), or
      the error of building or sending the request.
      `body(url, first, last)`: the body of the response to a GET of `url` with
      `Range: bytes=first-last`, or the error of sending it or reading the body. */
  datatype HttpDownloader = HttpDownloader(
    contentRange: string -> Result<string>,
    body: (string, int, int) -> Result<seq<byte>>)
  {
    /** `GetFileSize`: probe the size, then read the total of the Content-Range
        value. A failed exchange is passed on; otherwise every error is one of the
        header's, and a size is a 64-bit integer. */
    function GetFileSize(url: string): (r: Result<int>)
      ensures contentRange(url).Err? ==> r == Err(contentRange(url).error)
      ensures r.Ok? ==> contentRange(url).Ok? && Int64Min <= r.value <= Int64Max
      ensures r.Err? && contentRange(url).Ok? ==>
        r.error == BadContentRange || r.error.Syntax? || r.error.OutOfRange?
    {
      match contentRange(url)
      case Err(e) => Err(e)
      case Ok(header) => ParseContentRangeTotal(header)
    }

    /** `DownloadChunk`: the bytes of one inclusive range, as the server sends them. */
    function DownloadChunk(url: string, first: int, last: int): Result<seq<byte>>
    {
      body(url, first, last)
    }
  }

  /** The size part of `GetFileSize`: the text between the first `/` of a
      Content-Range value and the next `/` (or the end), read by `strconv.Atoi`.
      That text is the complete-length of section 14.4 of RFC 9110; `*` (length
      unknown) and an absent header are errors, and a signed total such as `-5`
      is accepted. */
  function ParseContentRangeTotal(header: string): (r: Result<int>)
    ensures r == Err(BadContentRange) <==> '/' !in header
    ensures r.Ok? ==> Int64Min <= r.value <= Int64Max
    ensures r.Err? ==> r.error == BadContentRange || r.error.Syntax? || r.error.OutOfRange?
  {
    var parts := Split(header, '/');
    if |parts| < 2 then Err(BadContentRange) else Atoi(parts[1])
  }

  // ---------------------------------------------------------------------
  // Chunk artifacts

  /** `fmt.Sprintf("%s.part%d", path, i)`: where chunk `i` is kept until reassembly. */
  function PartPath(path: string, i: nat): string
  {
    path + ".part" + DecimalString(i)
  }

  /** Chunk artifact names never collide with each other or with the destination,
      so the fetch tasks never write the same path and never write `path`. */
  lemma PartPathsDistinct(path: string, i: nat, j: nat)
    ensures PartPath(path, i) != path
    ensures i != j ==> PartPath(path, i) != PartPath(path, j)
  {
    var n := |path| + 5;
    assert PartPath(path, i)[n..] == DecimalString(i);
    assert PartPath(path, j)[n..] == DecimalString(j);
  }

  /** `q` is the artifact of one of the chunks `0 .. k-1`. */
  predicate IsPartBelow(path: string, q: string, k: nat)
  {
    exists i :: 0 <= i < k && q == PartPath(path, i)
  }

  // ---------------------------------------------------------------------
  // What DownloadFile does, step by step

  /** The response to the range request of chunk `i`. */
  function FetchChunk(repo: HttpDownloader, url: string, size: int, i: nat): Result<seq<byte>>
  {
    var r := ChunkRange(size, ChunkSize(size), i);
    repo.DownloadChunk(url, r.first, r.last)
  }

  /** The bytes chunk `i` delivered, or none if its request failed. */
  function ChunkBytes(repo: HttpDownloader, url: string, size: int, i: nat): seq<byte>
  {
    match FetchChunk(repo, url, size, i)
    case Ok(data) => data
    case Err(_) => []
  }

  /** One fetch task: download chunk `i`, then save it to its artifact. */
  function FetchStep(repo: HttpDownloader, url: string, path: string, size: int,
                     unwritable: set<string>, i: nat, files: Files): Run
  {
    match FetchChunk(repo, url, size, i)
    case Err(e) => Run(Fail(e), files)
    case Ok(data) => AfterSave(files, unwritable, PartPath(path, i), data)
  }

  /** The error slot `errChan`: a channel with room for one error, written with a
      non-blocking send, keeps the first error reported and drops the later ones. */
  function Report(slot: Outcome, status: Outcome): (r: Outcome)
    ensures slot.Fail? ==> r == slot
    ensures slot.Pass? ==> r == status
  {
    if slot.Pass? && status.Fail? then status else slot
  }

  /** The fetch phase after tasks `0 .. k-1`: every task runs, whether or not an
      earlier one failed, and the slot keeps the first error. */
  function FetchPhase(repo: HttpDownloader, url: string, path: string, size: int,
                      unwritable: set<string>, files: Files, k: nat): Run
  {
    if k == 0 then Run(Pass, files)
    else
      var prev := FetchPhase(repo, url, path, size, unwritable, files, k - 1);
      var step := FetchStep(repo, url, path, size, unwritable, k - 1, prev.files);
      Run(Report(prev.status, step.status), step.files)
  }

  /** One reassembly step: read artifact `i`, append it to `path`, delete the artifact. */
  function ReassembleStep(path: string, unwritable: set<string>, i: nat, files: Files): Run
  {
    var part := PartPath(path, i);
    match Lookup(files, part)
    case Err(e) => Run(Fail(e), files)
    case Ok(data) =>
      var saved := AfterSave(files, unwritable, path, data);
      if saved.status.Fail? then saved else AfterDelete(saved.files, part)
  }

  /** The reassembly loop after steps `0 .. k-1`, ending at the first failing step. */
  function Reassembly(path: string, unwritable: set<string>, files: Files, k: nat): Run
  {
    if k == 0 then Run(Pass, files)
    else
      var prev := Reassembly(path, unwritable, files, k - 1);
      if prev.status.Fail? then prev else ReassembleStep(path, unwritable, k - 1, prev.files)
  }

  /** The whole of `DownloadFile`: size, plan, fetch every chunk, and only when
      all of them succeeded, reassemble. */
  function Download(repo: HttpDownloader, url: string, path: string,
                    unwritable: set<string>, files: Files): Run
  {
    match repo.GetFileSize(url)
    case Err(e) => Run(Fail(e), files)
    case Ok(size) =>
      var k := PlannedChunks(size);
      var fetched := FetchPhase(repo, url, path, size, unwritable, files, k);
      if fetched.status.Fail? then fetched else Reassembly(path, unwritable, fetched.files, k)
  }

  /** A failed reassembly stays failed: later steps change nothing. */
  lemma {:induction false} ReassemblyStops(path: string, unwritable: set<string>, files: Files, j: nat, k: nat)
    requires j <= k
    requires Reassembly(path, unwritable, files, j).status.Fail?
    ensures Reassembly(path, unwritable, files, k) == Reassembly(path, unwritable, files, j)
    decreases k
  {
    if j < k {
      ReassemblyStops(path, unwritable, files, j, k - 1);
    }
  }

  /** The first failing reassembly step decides the outcome of the whole loop. */
  lemma ReassemblyFailsAt(path: string, unwritable: set<string>, files: Files, i: nat, k: nat)
    requires i < k
    requires Reassembly(path, unwritable, files, i).status.Pass?
    requires ReassembleStep(path, unwritable, i, Reassembly(path, unwritable, files, i).files).status.Fail?
    ensures Reassembly(path, unwritable, files, k)
         == ReassembleStep(path, unwritable, i, Reassembly(path, unwritable, files, i).files)
  {
    ReassemblyStops(path, unwritable, files, i + 1, k);
  }

  // ---------------------------------------------------------------------
  // The service

  /** `Service`: the orchestrator, wired to a repository and a store. */
  class Service {
    const repo: HttpDownloader
    const storage: LocalStorage

    constructor (repo: HttpDownloader, storage: LocalStorage)
      ensures this.repo == repo && this.storage == storage
    {
      this.repo := repo;
      this.storage := storage;
    }

    /** `Service.DownloadFile(url, path)`: returns the error and leaves the store
        exactly as `Download` describes. */
    method DownloadFile(url: string, path: string) returns (err: Outcome)
      modifies storage
      ensures Run(err, storage.files) == Download(repo, url, path, storage.unwritable, old(storage.files))
    {
      var sized := repo.GetFileSize(url);
      if sized.Err? {
        return Fail(sized.error);
      }
      var size := sized.value;
      err := FetchParts(url, path, size);
      if err.Fail? {
        return err;
      }
      err := Reassemble(path, size);
    }

    /** The fetch phase of `DownloadFile`: one task per chunk; every task runs,
        and the first error any of them reports is returned. */
    method FetchParts(url: string, path: string, size: int) returns (err: Outcome)
      modifies storage
      ensures Run(err, storage.files)
           == FetchPhase(repo, url, path, size, storage.unwritable, old(storage.files), PlannedChunks(size))
    {
      var chunkSize := ChunkSize(size);
      ghost var k := PlannedChunks(size);
      ghost var initial := storage.files;
      var slot := Pass;
      var i := 0;
      while i < NumChunks(size, chunkSize)
        invariant 0 <= i <= k
        invariant FetchPhase(repo, url, path, size, storage.unwritable, initial, i) == Run(slot, storage.files)
      {
        var status := FetchTask(url, path, size, chunkSize, i);
        slot := Report(slot, status);
        i := i + 1;
      }
      return slot;
    }

    /** One fetch task: ask for the range of chunk `i`, then save the bytes as
        artifact `i`; the error of either step is reported. */
    method FetchTask(url: string, path: string, size: int, chunkSize: int, i: nat) returns (err: Outcome)
      requires chunkSize == ChunkSize(size)
      modifies storage
      ensures Run(err, storage.files)
           == FetchStep(repo, url, path, size, storage.unwritable, i, old(storage.files))
    {
      var start := i * chunkSize;
      var end := (i + 1) * chunkSize - 1;
      if i == NumChunks(size, chunkSize) - 1 {
        end := size - 1;
      }
      var chunk := repo.DownloadChunk(url, start, end);
      if chunk.Err? {
        return Fail(chunk.error);
      }
      err := storage.Save(PartPath(path, i), chunk.value);
    }

    /** The reassembly loop of `DownloadFile`: in index order, read each
        artifact, append it to `path`, delete it; the first failure is returned. */
    method Reassemble(path: string, size: int) returns (err: Outcome)
      modifies storage
      ensures Run(err, storage.files)
           == Reassembly(path, storage.unwritable, old(storage.files), PlannedChunks(size))
    {
      var chunkSize := ChunkSize(size);
      ghost var k := PlannedChunks(size);
      ghost var fetched := storage.files;
      var i := 0;
      while i < NumChunks(size, chunkSize)
        invariant 0 <= i <= k
        invariant Reassembly(path, storage.unwritable, fetched, i) == Run(Pass, storage.files)
      {
        err := MovePart(path, i);
        if err.Fail? {
          ReassemblyFailsAt(path, storage.unwritable, fetched, i, k);
          return err;
        }
        i := i + 1;
      }
      return Pass;
    }

    /** One step of the reassembly loop: read artifact `i`, append it to `path`,
        delete it; the first failing call's error is returned. */
    method MovePart(path: string, i: nat) returns (err: Outcome)
      modifies storage
      ensures Run(err, storage.files) == ReassembleStep(path, storage.unwritable, i, old(storage.files))
    {
      var part := PartPath(path, i);
      var data := storage.Read(part);
      if data.Err? {
        return Fail(data.error);
      }
      err := storage.Save(path, data.value);
      if err.Fail? {
        return err;
      }
      err := storage.Delete(part);
    }
  }
}
