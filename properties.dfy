/** What `DownloadFile` guarantees, proved about the step-by-step description
    `Downloader.Download` that the method is verified against: when it
    succeeds, when it fails and what it leaves behind in either case. */
module DownloadProperties {
  import opened Base
  import opened GoText
  import opened Chunking
  import opened Storage
  import opened Downloader

  // ---------------------------------------------------------------------
  // Helpers on byte sequences

  /** The chunks one after another. */
  function Concat(chunks: seq<seq<byte>>): seq<byte>
  {
    if chunks == [] then [] else Concat(chunks[..|chunks| - 1]) + chunks[|chunks| - 1]
  }

  /** What each artifact holds after the fetch phase: what it held before (normally
      nothing), followed by the chunk's bytes, since `Save` appends. */
  function FetchedParts(repo: HttpDownloader, url: string, path: string, size: int, files: Files, k: nat): seq<seq<byte>>
  {
    seq(k, i requires 0 <= i < k => Content(files, PartPath(path, i)) + ChunkBytes(repo, url, size, i))
  }

  /** The bytes of each chunk, in index order. */
  function AllChunkBytes(repo: HttpDownloader, url: string, size: int, k: nat): seq<seq<byte>>
  {
    seq(k, i requires 0 <= i < k => ChunkBytes(repo, url, size, i))
  }

  /** Task `i` succeeds: its range request is answered and its artifact can be written. */
  predicate TaskSucceeds(repo: HttpDownloader, url: string, path: string, size: int,
                         unwritable: set<string>, i: nat)
  {
    FetchChunk(repo, url, size, i).Ok? && PartPath(path, i) !in unwritable
  }

  /** The error failing task `i` reports: that of its range request, or that of
      saving its artifact. */
  function TaskError(repo: HttpDownloader, url: string, path: string, size: int, i: nat): Error
  {
    match FetchChunk(repo, url, size, i)
    case Err(e) => e
    case Ok(_) => Permission(PartPath(path, i))
  }

  /** Every task `0 .. k-1` succeeds. */
  predicate FetchesSucceed(repo: HttpDownloader, url: string, path: string, size: int,
                           unwritable: set<string>, k: nat)
  {
    forall i :: 0 <= i < k ==> TaskSucceeds(repo, url, path, size, unwritable, i)
  }

  /** The artifacts of chunks `0 .. k-1` are all different from `path` and from
      each other's names below `j`. */
  lemma PartsAreNotBelow(path: string, j: nat)
    ensures !IsPartBelow(path, path, j)
    ensures forall m: nat {:trigger PartPath(path, m)} :: m >= j ==> !IsPartBelow(path, PartPath(path, m), j)
  {
    forall i | 0 <= i < j {
      PartPathsDistinct(path, i, i);
    }
    forall m: nat, i | m >= j && 0 <= i < j
      ensures PartPath(path, m) != PartPath(path, i)
    {
      PartPathsDistinct(path, m, i);
    }
  }

  // ---------------------------------------------------------------------
  // The fetch phase

  /** Whether it succeeds or not, the fetch phase touches no path other than the
      artifacts of its chunks — in particular not the destination. */
  lemma {:induction false} FetchPhaseKeepsOthers(repo: HttpDownloader, url: string, path: string, size: int,
                                                unwritable: set<string>, files: Files, k: nat)
    ensures forall q :: !IsPartBelow(path, q, k) ==>
      SameAt(files, FetchPhase(repo, url, path, size, unwritable, files, k).files, q)
  {
    if k > 0 {
      FetchPhaseKeepsOthers(repo, url, path, size, unwritable, files, k - 1);
      var prev := FetchPhase(repo, url, path, size, unwritable, files, k - 1);
      var r := FetchPhase(repo, url, path, size, unwritable, files, k);
      forall q | !IsPartBelow(path, q, k)
        ensures SameAt(files, r.files, q)
      {
        assert q != PartPath(path, k - 1);
        assert SameAt(files, prev.files, q);
        assert SameAt(prev.files, r.files, q);
      }
    }
  }

  /** The fetch phase succeeds exactly when every chunk request succeeds and every
      artifact can be written. */
  lemma {:induction false} FetchPhaseSucceedsExactlyWhen(repo: HttpDownloader, url: string, path: string, size: int,
                                                        unwritable: set<string>, files: Files, k: nat)
    ensures FetchPhase(repo, url, path, size, unwritable, files, k).status.Pass?
        <==> FetchesSucceed(repo, url, path, size, unwritable, k)
  {
    if k > 0 {
      FetchPhaseSucceedsExactlyWhen(repo, url, path, size, unwritable, files, k - 1);
      var prev := FetchPhase(repo, url, path, size, unwritable, files, k - 1);
      FetchStepStatus(repo, url, path, size, unwritable, k - 1, prev.files);
      FetchesSucceedStep(repo, url, path, size, unwritable, k);
    }
  }

  /** A task's status does not depend on the store: it passes exactly when the
      task succeeds, and otherwise carries the task's error. */
  lemma FetchStepStatus(repo: HttpDownloader, url: string, path: string, size: int,
                        unwritable: set<string>, i: nat, files: Files)
    ensures var st := FetchStep(repo, url, path, size, unwritable, i, files).status;
      && (st.Pass? <==> TaskSucceeds(repo, url, path, size, unwritable, i))
      && (st.Fail? ==> st.error == TaskError(repo, url, path, size, i))
  {
  }

  /** A task that succeeds appends its chunk's bytes to its artifact; a task that
      fails changes nothing. */
  lemma FetchStepFiles(repo: HttpDownloader, url: string, path: string, size: int,
                       unwritable: set<string>, i: nat, files: Files)
    ensures var r := FetchStep(repo, url, path, size, unwritable, i, files).files;
      && (TaskSucceeds(repo, url, path, size, unwritable, i) ==>
            r == Appended(files, PartPath(path, i), ChunkBytes(repo, url, size, i)))
      && (!TaskSucceeds(repo, url, path, size, unwritable, i) ==> r == files)
  {
  }

  /** Tasks `0 .. k-1` succeed exactly when tasks `0 .. k-2` and task `k-1` do. */
  lemma FetchesSucceedStep(repo: HttpDownloader, url: string, path: string, size: int,
                           unwritable: set<string>, k: nat)
    requires k > 0
    ensures FetchesSucceed(repo, url, path, size, unwritable, k)
        <==> FetchesSucceed(repo, url, path, size, unwritable, k - 1)
             && TaskSucceeds(repo, url, path, size, unwritable, k - 1)
  {
  }

  /** Every task runs, so after the fetch phase, failed or not, the artifact of
      each task that succeeded holds its previous content followed by that chunk's
      bytes, and the artifact of each task that failed is as it was. */
  lemma {:induction false} FetchPhaseFillsParts(repo: HttpDownloader, url: string, path: string, size: int,
                                               unwritable: set<string>, files: Files, k: nat)
    ensures var r := FetchPhase(repo, url, path, size, unwritable, files, k);
      forall i :: 0 <= i < k ==>
        (TaskSucceeds(repo, url, path, size, unwritable, i) ==>
          PartPath(path, i) in r.files
          && r.files[PartPath(path, i)] == Content(files, PartPath(path, i)) + ChunkBytes(repo, url, size, i))
        && (!TaskSucceeds(repo, url, path, size, unwritable, i) ==> SameAt(files, r.files, PartPath(path, i)))
  {
    if k > 0 {
      FetchPhaseFillsParts(repo, url, path, size, unwritable, files, k - 1);
      var prev := FetchPhase(repo, url, path, size, unwritable, files, k - 1);
      var r := FetchPhase(repo, url, path, size, unwritable, files, k);
      var part := PartPath(path, k - 1);
      FetchStepFiles(repo, url, path, size, unwritable, k - 1, prev.files);
      assert SameAt(files, prev.files, part) by {
        FetchPhaseKeepsOthers(repo, url, path, size, unwritable, files, k - 1);
        PartsAreNotBelow(path, k - 1);
      }
      forall i | 0 <= i < k - 1
        ensures SameAt(prev.files, r.files, PartPath(path, i))
      {
        PartPathsDistinct(path, i, k - 1);
      }
      assert r.files == FetchStep(repo, url, path, size, unwritable, k - 1, prev.files).files;
    }
  }

  /** When tasks `0 .. j-1` succeed and task `j` fails, the fetch phase reports
      task `j`'s error, whatever the later tasks do. */
  lemma {:induction false} FetchPhaseReportsFirstFailure(repo: HttpDownloader, url: string, path: string, size: int,
                                                        unwritable: set<string>, files: Files, j: nat, k: nat)
    requires j < k
    requires FetchesSucceed(repo, url, path, size, unwritable, j)
    requires !TaskSucceeds(repo, url, path, size, unwritable, j)
    ensures FetchPhase(repo, url, path, size, unwritable, files, k).status
         == Fail(TaskError(repo, url, path, size, j))
  {
    if k == j + 1 {
      FetchPhaseSucceedsExactlyWhen(repo, url, path, size, unwritable, files, j);
      FetchStepStatus(repo, url, path, size, unwritable, j, FetchPhase(repo, url, path, size, unwritable, files, j).files);
    } else {
      FetchPhaseReportsFirstFailure(repo, url, path, size, unwritable, files, j, k - 1);
    }
  }

  /** The facts about the fetch phase together. */
  lemma FetchPhaseWritesParts(repo: HttpDownloader, url: string, path: string, size: int,
                              unwritable: set<string>, files: Files, k: nat)
    ensures var r := FetchPhase(repo, url, path, size, unwritable, files, k);
      && (r.status.Pass? <==> FetchesSucceed(repo, url, path, size, unwritable, k))
      && (r.status.Pass? ==> forall i :: 0 <= i < k ==>
            PartPath(path, i) in r.files
            && r.files[PartPath(path, i)] == Content(files, PartPath(path, i)) + ChunkBytes(repo, url, size, i))
      && (forall q :: !IsPartBelow(path, q, k) ==> SameAt(files, r.files, q))
  {
    FetchPhaseKeepsOthers(repo, url, path, size, unwritable, files, k);
    FetchPhaseSucceedsExactlyWhen(repo, url, path, size, unwritable, files, k);
    FetchPhaseFillsParts(repo, url, path, size, unwritable, files, k);
  }

  /** The tasks of two different chunks commute: whether each succeeds or
      fails, running them in either order leaves the same store, because they
      write different artifacts. */
  lemma FetchTasksCommute(repo: HttpDownloader, url: string, path: string, size: int,
                          unwritable: set<string>, files: Files, i: nat, j: nat)
    requires i != j
    ensures var afterI := FetchStep(repo, url, path, size, unwritable, i, files).files;
            var afterJ := FetchStep(repo, url, path, size, unwritable, j, files).files;
            FetchStep(repo, url, path, size, unwritable, j, afterI).files
              == FetchStep(repo, url, path, size, unwritable, i, afterJ).files
  {
    var afterI := FetchStep(repo, url, path, size, unwritable, i, files).files;
    var afterJ := FetchStep(repo, url, path, size, unwritable, j, files).files;
    FetchStepFiles(repo, url, path, size, unwritable, i, files);
    FetchStepFiles(repo, url, path, size, unwritable, j, files);
    FetchStepFiles(repo, url, path, size, unwritable, j, afterI);
    FetchStepFiles(repo, url, path, size, unwritable, i, afterJ);
    PartPathsDistinct(path, i, j);
    AppendsCommute(files, PartPath(path, i), PartPath(path, j),
                   ChunkBytes(repo, url, size, i), ChunkBytes(repo, url, size, j));
  }

  /** The store after the fetch tasks listed in `order` ran one after another. */
  function FetchInOrder(repo: HttpDownloader, url: string, path: string, size: int,
                        unwritable: set<string>, files: Files, order: seq<nat>): Files
  {
    if |order| == 0 then files
    else
      var earlier := FetchInOrder(repo, url, path, size, unwritable, files, order[..|order| - 1]);
      FetchStep(repo, url, path, size, unwritable, order[|order| - 1], earlier).files
  }

  /** The chunk indices `0 .. k-1` in increasing order. */
  function Indices(k: nat): seq<nat>
  {
    seq(k, i requires 0 <= i < k => i)
  }

  /** `order` with its entries at `j` and `j + 1` exchanged. */
  function SwapAt(order: seq<nat>, j: nat): seq<nat>
    requires j + 1 < |order|
  {
    order[j := order[j + 1]][j + 1 := order[j]]
  }

  /** Exchanging two neighbouring, different tasks in any order of execution
      leaves the store unchanged. */
  lemma {:induction false} SwapNeighbouringTasks(repo: HttpDownloader, url: string, path: string, size: int,
                                                unwritable: set<string>, files: Files, order: seq<nat>, j: nat)
    requires j + 1 < |order| && order[j] != order[j + 1]
    ensures FetchInOrder(repo, url, path, size, unwritable, files, SwapAt(order, j))
         == FetchInOrder(repo, url, path, size, unwritable, files, order)
    decreases |order|
  {
    var n := |order|;
    var swapped := SwapAt(order, j);
    if j + 2 == n {
      var pre := order[..n - 2];
      assert order[..n - 1][..n - 2] == pre && swapped[..n - 1][..n - 2] == pre;
      var mid := FetchInOrder(repo, url, path, size, unwritable, files, pre);
      assert FetchInOrder(repo, url, path, size, unwritable, files, order[..n - 1])
          == FetchStep(repo, url, path, size, unwritable, order[n - 2], mid).files;
      assert FetchInOrder(repo, url, path, size, unwritable, files, swapped[..n - 1])
          == FetchStep(repo, url, path, size, unwritable, order[n - 1], mid).files;
      FetchTasksCommute(repo, url, path, size, unwritable, mid, order[n - 2], order[n - 1]);
    } else {
      assert swapped[..n - 1] == SwapAt(order[..n - 1], j);
      SwapNeighbouringTasks(repo, url, path, size, unwritable, files, order[..n - 1], j);
    }
  }

  /** Moving a task that occurs nowhere after position `p` to the end leaves the
      store unchanged. */
  lemma {:induction false} MoveTaskToEnd(repo: HttpDownloader, url: string, path: string, size: int,
                                        unwritable: set<string>, files: Files, order: seq<nat>, p: nat)
    requires p < |order| && order[p] !in order[p + 1..]
    ensures FetchInOrder(repo, url, path, size, unwritable, files, order[..p] + order[p + 1..] + [order[p]])
         == FetchInOrder(repo, url, path, size, unwritable, files, order)
    decreases |order| - p
  {
    var n := |order|;
    if p + 1 == n {
      assert order[..p] + order[p + 1..] + [order[p]] == order;
    } else {
      assert order[p + 1] in order[p + 1..];
      var swapped := SwapAt(order, p);
      SwapNeighbouringTasks(repo, url, path, size, unwritable, files, order, p);
      assert swapped[p + 2..] == order[p + 2..];
      assert swapped[p + 1..] == [order[p]] + order[p + 2..];
      assert order[p + 1..] == [order[p + 1]] + order[p + 2..];
      assert swapped[p + 1] !in swapped[p + 2..];
      MoveTaskToEnd(repo, url, path, size, unwritable, files, swapped, p + 1);
      assert swapped[..p + 1] + swapped[p + 2..] == order[..p] + order[p + 1..];
    }
  }

  /** Taking the largest index out of a permutation of `0 .. k` leaves a
      permutation of `0 .. k-1`, and the index occurs only once. */
  lemma RemoveLastIndex(order: seq<nat>, p: nat, k: nat)
    requires multiset(order) == multiset(Indices(k + 1)) && p < |order| && order[p] == k
    ensures multiset(order[..p] + order[p + 1..]) == multiset(Indices(k))
    ensures k !in order[p + 1..]
  {
    var before, after := order[..p], order[p + 1..];
    var single: seq<nat> := [k];
    assert order == before + single + after;
    assert Indices(k + 1) == Indices(k) + single;
    assert k !in Indices(k);
    assert multiset(order) == multiset(before) + multiset(single) + multiset(after);
    assert multiset(Indices(k + 1)) == multiset(Indices(k)) + multiset(single);
    var whole, front, back: multiset<nat> := multiset(order), multiset(before), multiset(after);
    assert whole[k] == front[k] + 1 + back[k];
    assert multiset(Indices(k))[k] == 0;
    assert back[k] == 0;
    assert multiset(before + after) == front + back == whole - multiset(single);
  }

  /** The concurrent tasks may finish in any order: running the tasks of chunks
      `0 .. k-1` in any permutation gives the store of the fetch phase. */
  lemma {:induction false} FetchPhaseAnyOrder(repo: HttpDownloader, url: string, path: string, size: int,
                                             unwritable: set<string>, files: Files, k: nat, order: seq<nat>)
    requires multiset(order) == multiset(Indices(k))
    ensures FetchInOrder(repo, url, path, size, unwritable, files, order)
         == FetchPhase(repo, url, path, size, unwritable, files, k).files
  {
    if k == 0 {
      assert |order| == |multiset(order)| == 0;
    } else {
      var last: nat := k - 1;
      assert Indices(k)[last] == last;
      assert last in multiset(order);
      var p :| 0 <= p < |order| && order[p] == last;
      var rest := order[..p] + order[p + 1..];
      RemoveLastIndex(order, p, last);
      MoveTaskToEnd(repo, url, path, size, unwritable, files, order, p);
      FetchPhaseAnyOrder(repo, url, path, size, unwritable, files, last, rest);
      assert (rest + [last])[..|rest|] == rest;
    }
  }

  // ---------------------------------------------------------------------
  // Reassembly

  /** The artifact names of chunks `0 .. k-1`, in index order. */
  function PartNames(path: string, k: nat): seq<string>
  {
    seq(k, i requires 0 <= i < k => PartPath(path, i))
  }

  /** None of `names[0 .. j-1]` is `q`. */
  predicate Avoids(names: seq<string>, j: nat, q: string)
    requires j <= |names|
  {
    forall i :: 0 <= i < j ==> names[i] != q
  }

  /** The store after the files `names[0 .. j-1]` have each been appended to
      `path` and removed, in order. */
  function Moved(files: Files, path: string, names: seq<string>, j: nat): Files
    requires j <= |names|
    requires forall i :: 0 <= i < j ==> names[i] in files
  {
    if j == 0 then files
    else Appended(Moved(files, path, names, j - 1), path, files[names[j - 1]]) - {names[j - 1]}
  }

  /** What the files `names[0 .. j-1]` hold, one after another. */
  function Joined(files: Files, names: seq<string>, j: nat): seq<byte>
    requires j <= |names|
  {
    if j == 0 then [] else Joined(files, names, j - 1) + Content(files, names[j - 1])
  }

  /** Joining files is concatenating their contents. */
  lemma {:induction false} JoinedIsConcat(files: Files, names: seq<string>, chunks: seq<seq<byte>>)
    requires |chunks| <= |names|
    requires forall i :: 0 <= i < |chunks| ==> Content(files, names[i]) == chunks[i]
    ensures Joined(files, names, |chunks|) == Concat(chunks)
  {
    if |chunks| > 0 {
      JoinedIsConcat(files, names, chunks[..|chunks| - 1]);
    }
  }

  /** Moving files keeps every path that is neither the destination nor one of
      the moved files exactly as it was. */
  lemma {:induction false} MovedKeepsOthers(files: Files, path: string, names: seq<string>, j: nat)
    requires j <= |names|
    requires forall i :: 0 <= i < j ==> names[i] in files
    ensures forall q :: q != path && Avoids(names, j, q) ==> SameAt(files, Moved(files, path, names, j), q)
  {
    if j > 0 {
      MovedKeepsOthers(files, path, names, j - 1);
      var prev := Moved(files, path, names, j - 1);
      var appended := Appended(prev, path, files[names[j - 1]]);
      forall q | q != path && Avoids(names, j, q)
        ensures SameAt(files, Moved(files, path, names, j), q)
      {
        assert q != names[j - 1];
        assert SameAt(files, prev, q);
        assert SameAt(prev, appended, q);
      }
    }
  }

  /** Moving files other than the destination removes all of them. */
  lemma {:induction false} MovedRemovesParts(files: Files, path: string, names: seq<string>, j: nat)
    requires j <= |names|
    requires forall i :: 0 <= i < j ==> names[i] in files
    requires Avoids(names, j, path)
    ensures forall i :: 0 <= i < j ==> names[i] !in Moved(files, path, names, j)
  {
    if j > 0 {
      MovedRemovesParts(files, path, names, j - 1);
      var prev := Moved(files, path, names, j - 1);
      var appended := prev[path := Content(prev, path) + files[names[j - 1]]];
      var moved := Moved(files, path, names, j);
      assert moved == appended - {names[j - 1]};
      forall i | 0 <= i < j
        ensures names[i] !in moved
      {
        if i < j - 1 {
          assert names[i] !in prev && names[i] != path;
        }
      }
    }
  }

  /** After moving files other than the destination, it holds its previous
      content followed by theirs, in order; it exists once anything was moved. */
  lemma {:induction false} MovedAppendsParts(files: Files, path: string, names: seq<string>, j: nat)
    requires j <= |names|
    requires forall i :: 0 <= i < j ==> names[i] in files
    requires Avoids(names, j, path)
    ensures Content(Moved(files, path, names, j), path) == Content(files, path) + Joined(files, names, j)
    ensures j > 0 ==> path in Moved(files, path, names, j)
  {
    if j > 0 {
      MovedAppendsParts(files, path, names, j - 1);
      var prev := Moved(files, path, names, j - 1);
      var data := files[names[j - 1]];
      assert names[j - 1] != path;
      assert Moved(files, path, names, j)[path] == Content(prev, path) + data;
      var before := Content(files, path);
      var earlier := Joined(files, names, j - 1);
      assert before + earlier + data == before + (earlier + data);
    }
  }

  /** One reassembly step on an existing artifact and a writable destination
      appends the artifact to the destination and removes the artifact. */
  lemma ReassembleStepMovesPart(path: string, unwritable: set<string>, i: nat, files: Files)
    requires PartPath(path, i) in files && path !in unwritable
    ensures var part := PartPath(path, i);
      ReassembleStep(path, unwritable, i, files) == Run(Pass, Appended(files, path, files[part]) - {part})
  {
    PartPathsDistinct(path, i, i);
  }

  /** The reassembly loop over existing artifacts and a writable destination moves
      the artifacts into the destination, and succeeds. */
  lemma {:induction false} ReassemblyMovesParts(path: string, unwritable: set<string>, files: Files,
                                               names: seq<string>, j: nat)
    requires names == PartNames(path, |names|) && j <= |names|
    requires forall i :: 0 <= i < j ==> PartPath(path, i) in files
    requires j > 0 ==> path !in unwritable
    ensures Reassembly(path, unwritable, files, j) == Run(Pass, Moved(files, path, names, j))
  {
    if j > 0 {
      ReassemblyMovesParts(path, unwritable, files, names, j - 1);
      MovedKeepsOthers(files, path, names, j - 1);
      var part := PartPath(path, j - 1);
      forall i | 0 <= i < j - 1
        ensures names[i] != part
      {
        PartPathsDistinct(path, i, j - 1);
      }
      PartPathsDistinct(path, j - 1, j - 1);
      var prev := Moved(files, path, names, j - 1);
      assert SameAt(files, prev, part);
      ReassembleStepMovesPart(path, unwritable, j - 1, prev);
    }
  }

  /** Reassembling chunks `0 .. j-1` whose artifacts all exist into a writable
      destination succeeds. The destination then holds its previous content
      followed by the artifacts' contents in index order (it is created when it was
      absent and `j > 0`), those artifacts are gone, and nothing else changed. */
  lemma ReassemblyAppendsParts(path: string, unwritable: set<string>, files: Files, j: nat)
    requires forall i :: 0 <= i < j ==> PartPath(path, i) in files
    requires j > 0 ==> path !in unwritable
    ensures var r := Reassembly(path, unwritable, files, j);
      && r.status == Pass
      && Content(r.files, path) == Content(files, path) + Joined(files, PartNames(path, j), j)
      && (path in r.files <==> path in files || j > 0)
      && (forall i :: 0 <= i < j ==> PartPath(path, i) !in r.files)
      && (forall q :: q != path && !IsPartBelow(path, q, j) ==> SameAt(files, r.files, q))
  {
    var names := PartNames(path, j);
    forall i | 0 <= i < j
      ensures names[i] != path
    {
      PartPathsDistinct(path, i, i);
    }
    ReassemblyMovesParts(path, unwritable, files, names, j);
    MovedKeepsOthers(files, path, names, j);
    MovedRemovesParts(files, path, names, j);
    MovedAppendsParts(files, path, names, j);
  }

  /** Reassembly stops at the first missing artifact with a not-found error; what
      the steps before it did stays done (see `ReassemblyAppendsParts`). */
  lemma ReassemblyAbortsAtMissingPart(path: string, unwritable: set<string>, files: Files, j: nat, k: nat)
    requires j < k
    requires forall i :: 0 <= i < j ==> PartPath(path, i) in files
    requires PartPath(path, j) !in files
    requires j > 0 ==> path !in unwritable
    ensures Reassembly(path, unwritable, files, k)
         == Run(Fail(NotExist(PartPath(path, j))), Reassembly(path, unwritable, files, j).files)
  {
    ReassemblyAppendsParts(path, unwritable, files, j);
    PartsAreNotBelow(path, j);
    PartPathsDistinct(path, j, j);
    assert SameAt(files, Reassembly(path, unwritable, files, j).files, PartPath(path, j));
    ReassemblyStops(path, unwritable, files, j + 1, k);
  }

  /** A destination that cannot be written stops reassembly at its first append,
      with nothing changed. */
  lemma ReassemblyBlockedDestination(path: string, unwritable: set<string>, files: Files, k: nat)
    requires k > 0 && path in unwritable
    requires PartPath(path, 0) in files
    ensures Reassembly(path, unwritable, files, k) == Run(Fail(Permission(path)), files)
  {
    ReassemblyStops(path, unwritable, files, 1, k);
  }

  /** Reassembling a second time fails cleanly with a not-found error for the
      first artifact, and changes nothing: the first pass deleted every artifact. */
  lemma SecondReassemblyFails(path: string, unwritable: set<string>, files: Files, k: nat)
    requires k > 0
    requires forall i :: 0 <= i < k ==> PartPath(path, i) in files
    requires path !in unwritable
    ensures var once := Reassembly(path, unwritable, files, k);
      Reassembly(path, unwritable, once.files, k) == Run(Fail(NotExist(PartPath(path, 0))), once.files)
  {
    ReassemblyAppendsParts(path, unwritable, files, k);
    var once := Reassembly(path, unwritable, files, k);
    ReassemblyAbortsAtMissingPart(path, unwritable, once.files, 0, k);
  }

  // ---------------------------------------------------------------------
  // The whole download

  /** A failed size probe is returned as is, before anything is written. */
  lemma DownloadFailsOnSize(repo: HttpDownloader, url: string, path: string,
                            unwritable: set<string>, files: Files)
    requires repo.GetFileSize(url).Err?
    ensures Download(repo, url, path, unwritable, files) == Run(Fail(repo.GetFileSize(url).error), files)
  {
  }

  /** An empty file: no chunk is fetched, nothing is written (the destination is
      not even created), and the download succeeds. */
  lemma EmptyFileDownloadWritesNothing(repo: HttpDownloader, url: string, path: string,
                                       unwritable: set<string>, files: Files)
    requires repo.GetFileSize(url) == Ok(0)
    ensures Download(repo, url, path, unwritable, files) == Run(Pass, files)
  {
    EmptyFileNoChunks();
  }

  /** The download succeeds exactly when the size is known, every chunk request
      succeeds, every artifact can be written, and — if there is any chunk — the
      destination can be written. */
  lemma DownloadSucceedsExactlyWhen(repo: HttpDownloader, url: string, path: string,
                                    unwritable: set<string>, files: Files, size: int)
    requires repo.GetFileSize(url) == Ok(size)
    ensures var k := PlannedChunks(size);
      (Download(repo, url, path, unwritable, files).status == Pass <==>
        FetchesSucceed(repo, url, path, size, unwritable, k) && (k > 0 ==> path !in unwritable))
  {
    var k := PlannedChunks(size);
    FetchPhaseWritesParts(repo, url, path, size, unwritable, files, k);
    var fetched := FetchPhase(repo, url, path, size, unwritable, files, k);
    if fetched.status.Pass? {
      if k > 0 && path in unwritable {
        ReassemblyBlockedDestination(path, unwritable, fetched.files, k);
      } else {
        ReassemblyAppendsParts(path, unwritable, fetched.files, k);
      }
    }
  }

  /** If a chunk request fails or its artifact cannot be written, the download
      fails before reassembly: the destination, and every path other than the
      artifacts, is exactly as it was. */
  lemma FailedFetchKeepsDestination(repo: HttpDownloader, url: string, path: string,
                                    unwritable: set<string>, files: Files, size: int, j: nat)
    requires repo.GetFileSize(url) == Ok(size)
    requires j < PlannedChunks(size)
    requires !TaskSucceeds(repo, url, path, size, unwritable, j)
    ensures var r := Download(repo, url, path, unwritable, files);
      && r.status.Fail?
      && SameAt(files, r.files, path)
      && (forall q :: !IsPartBelow(path, q, PlannedChunks(size)) ==> SameAt(files, r.files, q))
  {
    var k := PlannedChunks(size);
    FetchPhaseSucceedsExactlyWhen(repo, url, path, size, unwritable, files, k);
    FetchPhaseKeepsOthers(repo, url, path, size, unwritable, files, k);
    PartsAreNotBelow(path, k);
  }

  /** When tasks `0 .. j-1` succeed and task `j` fails, the download returns task
      `j`'s error, and the artifacts of all tasks that succeeded — before or after
      `j` — are left behind with their chunk's bytes: nothing cleans them up. */
  lemma DownloadReportsFirstFailure(repo: HttpDownloader, url: string, path: string,
                                    unwritable: set<string>, files: Files, size: int, j: nat)
    requires repo.GetFileSize(url) == Ok(size)
    requires j < PlannedChunks(size)
    requires FetchesSucceed(repo, url, path, size, unwritable, j)
    requires !TaskSucceeds(repo, url, path, size, unwritable, j)
    ensures var r := Download(repo, url, path, unwritable, files);
      && r.status == Fail(TaskError(repo, url, path, size, j))
      && (forall i :: 0 <= i < PlannedChunks(size) && TaskSucceeds(repo, url, path, size, unwritable, i) ==>
            PartPath(path, i) in r.files
            && r.files[PartPath(path, i)] == Content(files, PartPath(path, i)) + ChunkBytes(repo, url, size, i))
  {
    var k := PlannedChunks(size);
    FetchPhaseReportsFirstFailure(repo, url, path, size, unwritable, files, j, k);
    FetchPhaseFillsParts(repo, url, path, size, unwritable, files, k);
  }

  /** On success the destination holds its previous content followed by every
      artifact's content in index order — each artifact being its own previous
      content followed by that chunk's bytes — no artifact is left, and every other
      path is unchanged. */
  lemma DownloadAssemblesChunks(repo: HttpDownloader, url: string, path: string,
                                unwritable: set<string>, files: Files, size: int)
    requires repo.GetFileSize(url) == Ok(size)
    requires Download(repo, url, path, unwritable, files).status == Pass
    ensures var k := PlannedChunks(size); var r := Download(repo, url, path, unwritable, files).files;
      && Content(r, path) == Content(files, path) + Concat(FetchedParts(repo, url, path, size, files, k))
      && (path in r <==> path in files || k > 0)
      && (forall i :: 0 <= i < k ==> PartPath(path, i) !in r)
      && (forall q :: q != path && !IsPartBelow(path, q, k) ==> SameAt(files, r, q))
  {
    var k := PlannedChunks(size);
    var fetched := FetchPhase(repo, url, path, size, unwritable, files, k);
    var parts := FetchedParts(repo, url, path, size, files, k);
    assert k > 0 ==> path !in unwritable by {
      DownloadSucceedsExactlyWhen(repo, url, path, unwritable, files, size);
    }
    assert FetchesSucceed(repo, url, path, size, unwritable, k) by {
      FetchPhaseSucceedsExactlyWhen(repo, url, path, size, unwritable, files, k);
    }
    assert forall i :: 0 <= i < k ==> PartPath(path, i) in fetched.files && fetched.files[PartPath(path, i)] == parts[i] by {
      FetchPhaseFillsParts(repo, url, path, size, unwritable, files, k);
    }
    assert forall q :: !IsPartBelow(path, q, k) ==> SameAt(files, fetched.files, q) by {
      FetchPhaseKeepsOthers(repo, url, path, size, unwritable, files, k);
    }
    ReassemblyOfFetchedParts(path, unwritable, files, fetched.files, parts);
  }

  /** Reassembling artifacts that hold `parts`, in a store that otherwise agrees
      with `files`, appends the concatenation of `parts` to the destination. */
  lemma ReassemblyOfFetchedParts(path: string, unwritable: set<string>, files: Files,
                                 fetched: Files, parts: seq<seq<byte>>)
    requires |parts| > 0 ==> path !in unwritable
    requires forall i :: 0 <= i < |parts| ==> PartPath(path, i) in fetched && fetched[PartPath(path, i)] == parts[i]
    requires forall q :: !IsPartBelow(path, q, |parts|) ==> SameAt(files, fetched, q)
    ensures var k := |parts|; var r := Reassembly(path, unwritable, fetched, k);
      && r.status == Pass
      && Content(r.files, path) == Content(files, path) + Concat(parts)
      && (path in r.files <==> path in files || k > 0)
      && (forall i :: 0 <= i < k ==> PartPath(path, i) !in r.files)
      && (forall q :: q != path && !IsPartBelow(path, q, k) ==> SameAt(files, r.files, q))
  {
    var k := |parts|;
    PartsAreNotBelow(path, k);
    assert SameAt(files, fetched, path);
    ReassemblyAppendsParts(path, unwritable, fetched, k);
    JoinedIsConcat(fetched, PartNames(path, k), parts);
  }

  /** With no leftover artifacts from an earlier run, a successful download
      appends exactly the chunks' bytes, in index order, to the destination. */
  lemma DownloadAppendsChunksInOrder(repo: HttpDownloader, url: string, path: string,
                                     unwritable: set<string>, files: Files, size: int)
    requires repo.GetFileSize(url) == Ok(size)
    requires Download(repo, url, path, unwritable, files).status == Pass
    requires forall i :: 0 <= i < PlannedChunks(size) ==> PartPath(path, i) !in files
    ensures Content(Download(repo, url, path, unwritable, files).files, path)
         == Content(files, path) + Concat(AllChunkBytes(repo, url, size, PlannedChunks(size)))
  {
    var k := PlannedChunks(size);
    DownloadAssemblesChunks(repo, url, path, unwritable, files, size);
    forall i | 0 <= i < k
      ensures FetchedParts(repo, url, path, size, files, k)[i] == AllChunkBytes(repo, url, size, k)[i]
    {
      assert Content(files, PartPath(path, i)) == [];
    }
    assert FetchedParts(repo, url, path, size, files, k) == AllChunkBytes(repo, url, size, k);
  }

  /** A leftover artifact from an earlier failed run ends up in the destination:
      because `Save` appends, its old bytes come before the chunk's bytes. */
  lemma LeftoverPartCorruptsDownload(repo: HttpDownloader, url: string, path: string,
                                     unwritable: set<string>, files: Files, stale: seq<byte>)
    requires repo.GetFileSize(url) == Ok(1)
    requires repo.DownloadChunk(url, 0, 0).Ok?
    requires path !in files && path !in unwritable && PartPath(path, 0) !in unwritable
    requires files == map[PartPath(path, 0) := stale]
    ensures Download(repo, url, path, unwritable, files).status == Pass
    ensures Content(Download(repo, url, path, unwritable, files).files, path)
         == stale + repo.DownloadChunk(url, 0, 0).value
  {
    SmallFileSingleChunk(1);
    assert FetchChunk(repo, url, 1, 0) == repo.DownloadChunk(url, 0, 0);
    DownloadSucceedsExactlyWhen(repo, url, path, unwritable, files, 1);
    DownloadAssemblesChunks(repo, url, path, unwritable, files, 1);
    var parts := FetchedParts(repo, url, path, 1, files, 1);
    assert parts == [stale + repo.DownloadChunk(url, 0, 0).value];
    assert Concat(parts) == Concat(parts[..0]) + parts[0];
  }

  // ---------------------------------------------------------------------
  // Round trip: a server that honours Range requests

  /** The pieces of `content` the ranges name. */
  function Slices(content: seq<byte>, p: seq<ByteRange>): seq<seq<byte>>
    requires forall i :: 0 <= i < |p| ==> 0 <= p[i].first <= p[i].last + 1 <= |content|
  {
    seq(|p|, i requires 0 <= i < |p| => content[p[i].first..p[i].last + 1])
  }

  /** Contiguous ranges starting at 0 cut `content` into pieces that concatenate
      back to its prefix up to the end of the last range used. */
  lemma {:induction false} ConcatOfContiguousSlices(content: seq<byte>, p: seq<ByteRange>, m: nat)
    requires 1 <= m <= |p|
    requires p[0].first == 0
    requires forall i :: 0 <= i < |p| ==> 0 <= p[i].first <= p[i].last < |content|
    requires forall i :: 0 <= i < |p| - 1 ==> p[i + 1].first == p[i].last + 1
    ensures Concat(Slices(content, p)[..m]) == content[..p[m - 1].last + 1]
  {
    var s := Slices(content, p);
    assert s[..m][..m - 1] == s[..m - 1];
    if m == 1 {
      assert s[..m - 1] == [];
    } else {
      ConcatOfContiguousSlices(content, p, m - 1);
      assert content[..p[m - 1].last + 1]
          == content[..p[m - 2].last + 1] + content[p[m - 1].first..p[m - 1].last + 1];
    }
  }

  /** The plan's ranges cut a file into pieces that concatenate back to it. */
  lemma ConcatOfPlanSlices(content: seq<byte>)
    ensures var p := Plan(|content|);
      && (forall i :: 0 <= i < |p| ==> 0 <= p[i].first <= p[i].last < |content|)
      && Concat(Slices(content, p)) == content
  {
    var size := |content|;
    var p := Plan(size);
    PlanIsContiguous(size);
    var k := |p|;
    if k > 0 {
      ConcatOfContiguousSlices(content, p, k);
      assert Slices(content, p)[..k] == Slices(content, p);
      assert content[..p[k - 1].last + 1] == content;
    } else {
      assert Slices(content, p) == [];
    }
  }

  /** A server that honours Range requests answers every chunk of the plan with
      that chunk's slice of the file. */
  lemma HonestServerChunks(repo: HttpDownloader, url: string, content: seq<byte>)
    requires forall a, b :: 0 <= a <= b < |content| ==> repo.DownloadChunk(url, a, b) == Ok(content[a..b + 1])
    ensures var p := Plan(|content|);
      && (forall i :: 0 <= i < |p| ==> 0 <= p[i].first <= p[i].last < |content|)
      && (forall i :: 0 <= i < |p| ==> FetchChunk(repo, url, |content|, i).Ok?)
      && AllChunkBytes(repo, url, |content|, |p|) == Slices(content, p)
  {
    var size := |content|;
    var p := Plan(size);
    PlanIsContiguous(size);
    var chunks := AllChunkBytes(repo, url, size, |p|);
    var slices := Slices(content, p);
    forall i | 0 <= i < |p|
      ensures FetchChunk(repo, url, size, i) == Ok(slices[i])
      ensures chunks[i] == slices[i]
    {
      var r := p[i];
      assert r == ChunkRange(size, ChunkSize(size), i);
      assert repo.DownloadChunk(url, r.first, r.last) == Ok(content[r.first..r.last + 1]);
    }
    assert chunks == slices;
  }

  /** When the server answers every range request `first-last` with exactly those
      bytes of a file, and no artifact is in the way, the download succeeds and
      appends exactly that file to the destination, whatever its size. */
  lemma DownloadReproducesRemoteFile(repo: HttpDownloader, url: string, path: string,
                                     unwritable: set<string>, files: Files, content: seq<byte>)
    requires repo.GetFileSize(url) == Ok(|content|)
    requires forall a, b :: 0 <= a <= b < |content| ==> repo.DownloadChunk(url, a, b) == Ok(content[a..b + 1])
    requires path !in unwritable
    requires forall i :: 0 <= i < PlannedChunks(|content|) ==>
      PartPath(path, i) !in files && PartPath(path, i) !in unwritable
    ensures Download(repo, url, path, unwritable, files).status == Pass
    ensures Content(Download(repo, url, path, unwritable, files).files, path) == Content(files, path) + content
  {
    var size := |content|;
    HonestServerChunks(repo, url, content);
    DownloadSucceedsExactlyWhen(repo, url, path, unwritable, files, size);
    DownloadAppendsChunksInOrder(repo, url, path, unwritable, files, size);
    ConcatOfPlanSlices(content);
  }

  // ---------------------------------------------------------------------
  // The size probe

  /** The total is the field between the first `/` and the next `/` (or the
      end of the value), read by Atoi: an integer in that field is the size,
      anything else is Atoi's error. */
  lemma ParseTotalReadsSecondField(prefix: string, total: string, rest: string)
    requires '/' !in prefix && '/' !in total
    ensures ParseContentRangeTotal(prefix + "/" + total + "/" + rest) == Atoi(total)
    ensures ParseContentRangeTotal(prefix + "/" + total) == Atoi(total)
  {
    assert prefix + "/" + total + "/" + rest == prefix + ['/'] + (total + ['/'] + rest);
    SplitAfterPiece(prefix, '/', total + ['/'] + rest);
    SplitAfterPiece(total, '/', rest);
    assert prefix + "/" + total == prefix + ['/'] + total;
    SplitAfterPiece(prefix, '/', total);
  }

  /** The total of a well-formed Content-Range value is read back exactly. */
  lemma ParseTotalOfWellFormedHeader(prefix: string, n: int)
    requires '/' !in prefix
    requires Int64Min <= n <= Int64Max
    ensures ParseContentRangeTotal(prefix + "/" + FormatInt(n)) == Ok(n)
  {
    var t := FormatInt(n);
    var d := DecimalString(if n < 0 then -n else n);
    assert t == d || t == "-" + d;
    assert forall i :: 0 <= i < |d| ==> IsDigit(d[i]);
    assert '/' !in t;
    ParseTotalReadsSecondField(prefix, t, "");
    AtoiOfFormatInt(n);
  }

  /** A total is read from a Content-Range value. */
  lemma ParseTotalReadsTotal(header: string)
    requires header == "bytes 0-0/1234"
    ensures ParseContentRangeTotal(header) == Ok(1234)
  {
    assert header == "bytes 0-0" + "/" + "1234";
    ParseTotalReadsSecondField("bytes 0-0", "1234", "");
    FormatIntExamples();
    AtoiOfFormatInt(1234);
  }

  /** A negative total gets through: `strconv.Atoi` accepts a sign. */
  lemma ParseTotalAcceptsNegative(header: string)
    requires header == "bytes 0-0/-5"
    ensures ParseContentRangeTotal(header) == Ok(-5)
  {
    assert header == "bytes 0-0" + "/" + "-5";
    ParseTotalReadsSecondField("bytes 0-0", "-5", "");
    FormatIntExamples();
    AtoiOfFormatInt(-5);
  }

  /** An unknown total `*` is a syntax error, and a missing header (the empty
      value) is a format error. */
  lemma ParseTotalRejectsUnknownOrMissing(header: string)
    requires header == "bytes 0-0/*"
    ensures ParseContentRangeTotal(header) == Err(Syntax("*"))
    ensures ParseContentRangeTotal("") == Err(BadContentRange)
  {
    assert header == "bytes 0-0" + "/" + "*";
    ParseTotalReadsSecondField("bytes 0-0", "*", "");
    assert DigitRun("*") == 0;
    assert "*"[..0] == "";
  }
}
