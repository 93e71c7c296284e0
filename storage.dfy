/** The blob store behind `LocalStorage`: a map from path to file content.
    `Save` opens its path with `O_APPEND|O_CREATE`, so it creates an absent
    path and appends to an existing one; it never truncates. `Read` and
    `Delete` fail on an absent path. The operating system's refusal to open a
    path for writing (permissions, a directory in the way, ...) is represented
    by the set of `unwritable` paths. */
module Storage {
  import opened Base

  /** The contents of the file system: path to bytes. */
  type Files = map<string, seq<byte>>

  /** The outcome of a store operation: the error it returns and the files after it. */
  datatype Run = Run(status: Outcome, files: Files)

  /** The bytes at `path`, or nothing when the path is absent. */
  function Content(files: Files, path: string): seq<byte>
  {
    if path in files then files[path] else []
  }

  /** `path` exists in both stores or in neither, with the same content. */
  predicate SameAt(before: Files, after: Files, path: string)
  {
    (path in before <==> path in after) && (path in before ==> before[path] == after[path])
  }

  /** The store after a successful `Save(path, data)`: `data` is appended to what
      the path held, or becomes its content when it was absent; every other path
      is left alone. */
  function Appended(files: Files, path: string, data: seq<byte>): (r: Files)
    ensures path in r && r[path] == Content(files, path) + data
    ensures path !in files ==> r[path] == data
    ensures forall q :: q != path ==> SameAt(files, r, q)
  {
    files[path := Content(files, path) + data]
  }

  /** `Save(path, data)`: fails, changing nothing, when the path cannot be opened
      for writing; otherwise appends. */
  function AfterSave(files: Files, unwritable: set<string>, path: string, data: seq<byte>): (r: Run)
    ensures r.status == Pass <==> path !in unwritable
    ensures r.status.Fail? ==> r.status.error == Permission(path) && r.files == files
    ensures r.status.Pass? ==> r.files == Appended(files, path, data)
  {
    if path in unwritable then Run(Fail(Permission(path)), files)
    else Run(Pass, Appended(files, path, data))
  }

  /** `Read(path)`: the content of the path, or a not-found error. */
  function Lookup(files: Files, path: string): (r: Result<seq<byte>>)
    ensures r.Ok? <==> path in files
    ensures r.Ok? ==> r.value == files[path]
    ensures r.Err? ==> r.error == NotExist(path)
  {
    if path in files then Ok(files[path]) else Err(NotExist(path))
  }

  /** `Delete(path)`: removes the path, or fails with a not-found error. */
  function AfterDelete(files: Files, path: string): (r: Run)
    ensures r.status == Pass <==> path in files
    ensures r.status.Fail? ==> r.status.error == NotExist(path)
    ensures path !in r.files
    ensures forall q :: q != path ==> SameAt(files, r.files, q)
  {
    if path in files then Run(Pass, files - {path}) else Run(Fail(NotExist(path)), files)
  }

  /** Two appends build the concatenation: saving `a` then `b` to one path is
      saving `a + b`. Reassembly relies on this. */
  lemma AppendsConcatenate(files: Files, path: string, a: seq<byte>, b: seq<byte>)
    ensures Appended(Appended(files, path, a), path, b) == Appended(files, path, a + b)
  {
    assert Content(files, path) + a + b == Content(files, path) + (a + b);
  }

  /** Appends to two different paths commute, so the order in which concurrent
      writers of distinct paths finish does not matter. */
  lemma AppendsCommute(files: Files, p: string, q: string, a: seq<byte>, b: seq<byte>)
    requires p != q
    ensures Appended(Appended(files, p, a), q, b) == Appended(Appended(files, q, b), p, a)
  {
  }

  /** Saving is not idempotent: saving the same non-empty data twice leaves it
      in the file twice. */
  lemma SaveTwiceDuplicates(files: Files, path: string, data: seq<byte>)
    requires |data| > 0
    ensures Content(Appended(Appended(files, path, data), path, data), path)
         == Content(files, path) + data + data
    ensures Appended(Appended(files, path, data), path, data) != Appended(files, path, data)
  {
    var twice := Appended(Appended(files, path, data), path, data);
    assert |twice[path]| > |Appended(files, path, data)[path]|;
  }

  /** The file system `LocalStorage` works on. */
  class LocalStorage {
    /** What each existing path holds. */
    var files: Files
    /** Paths the operating system refuses to open for writing. */
    const unwritable: set<string>

    constructor (files: Files, unwritable: set<string>)
      ensures this.files == files && this.unwritable == unwritable
    {
      this.files := files;
      this.unwritable := unwritable;
    }

    /** `LocalStorage.Save`: open with `O_APPEND|O_CREATE|O_WRONLY`, write `data`. */
    method Save(path: string, data: seq<byte>) returns (err: Outcome)
      modifies this
      ensures err == AfterSave(old(files), unwritable, path, data).status
      ensures files == AfterSave(old(files), unwritable, path, data).files
    {
      if path in unwritable {
        return Fail(Permission(path));
      }
      var existing := if path in files then files[path] else [];
      files := files[path := existing + data];
      return Pass;
    }

    /** `LocalStorage.Read`: the whole content of `path`; the store is not changed. */
    method Read(path: string) returns (r: Result<seq<byte>>)
      ensures r.Ok? <==> path in files
      ensures r.Ok? ==> r.value == files[path]
      ensures r.Err? ==> r.error == NotExist(path)
    {
      if path !in files {
        return Err(NotExist(path));
      }
      return Ok(files[path]);
    }

    /** `LocalStorage.Delete`: removes `path`. */
    method Delete(path: string) returns (err: Outcome)
      modifies this
      ensures err == AfterDelete(old(files), path).status
      ensures files == AfterDelete(old(files), path).files
    {
      if path !in files {
        return Fail(NotExist(path));
      }
      files := files - {path};
      return Pass;
    }
  }
}
