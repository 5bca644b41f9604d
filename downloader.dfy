/** `download_book`: fetch the page title, derive the book's directory, then
    download the numbered images `1.jpg`, `2.jpg`, ... until the server
    answers an image request with a status other than 200.

    The world the loop acts on is abstract. The directory is a `Disk`, a map
    from path to file contents that the loop reads (`os.path.exists`) and
    writes. The network is the sequence of replies it will give to the
    image requests, one reply per request, in order; a request that cannot
    be answered because the sequence is used up ends the model's run with
    `OutOfReplies`, where the program itself would still be waiting. */
module Downloader {
  import opened Wrappers
  import opened Strings
  import opened Sanitizer
  import opened Paths

  newtype byte = x: int | 0 <= x < 256
  type Bytes = seq<byte>

  /** The files of the working tree: path to contents. */
  type Files = map<string, Bytes>

  /** What `requests.get` does for one image: a response with its status
      code and body, or an exception before any response. */
  datatype Reply = Response(status: int, body: Bytes) | ConnectionError

  /** Where the loop ended: at the first index whose response was not 200,
      or, in the model only, at an index it could not request because the
      replies were used up. In both cases `at` is the cursor's last value. */
  datatype Outcome = Stopped(at: nat) | OutOfReplies(at: nat)

  /** The end of a run of the loop: how it ended, the files afterwards, and
      the cursor value of every request it made, in order (`probes[m]` is
      the index asked for by the request that got `replies[m]`). */
  datatype RunResult = RunResult(outcome: Outcome, files: Files, probes: seq<nat>)

  /** `name` gives distinct indices distinct paths. */
  ghost predicate Injective(name: nat -> string) {
    forall a: nat, b: nat :: name(a) == name(b) ==> a == b
  }

  /** The paths `name(j)` of indices `lo` up to (not including) `hi`. */
  function Names(name: nat -> string, lo: nat, hi: nat): set<string> {
    set j: nat | lo <= j < hi :: name(j)
  }

  /** Splitting off the lowest index of a range of names. */
  lemma NamesSplit(name: nat -> string, lo: nat, hi: nat)
    requires lo < hi
    ensures Names(name, lo, hi) == {name(lo)} + Names(name, lo + 1, hi)
  {
  }

  /** Names of indices whose files already exist add nothing to the files. */
  lemma NamesPresent(files: Files, name: nat -> string, lo: nat, mid: nat, hi: nat)
    requires lo <= mid <= hi
    requires forall k :: lo <= k < mid ==> name(k) in files
    ensures files.Keys + Names(name, lo, hi) == files.Keys + Names(name, mid, hi)
  {
    assert Names(name, lo, hi) == Names(name, lo, mid) + Names(name, mid, hi);
    assert Names(name, lo, mid) <= files.Keys;
  }

  /** Writing `file` and then the files `rest` gives the old files, `file`
      and `rest`. */
  lemma KeysAfterWrite(keys: set<string>, file: string, rest: set<string>, written: set<string>, final: set<string>)
    requires written == keys + {file}
    requires final == written + rest
    ensures final == keys + ({file} + rest)
  {
  }

  /** Existing paths that are not the file of an index below `i`: the files
      the loop may still skip over, which bounds how often it can skip. */
  function Unvisited(files: Files, name: nat -> string, i: nat): set<string> {
    files.Keys - Names(name, 0, i)
  }

  /** Skipping an existing file leaves one path fewer to skip over. */
  lemma SkipShrinks(files: Files, name: nat -> string, i: nat)
    requires Injective(name)
    requires name(i) in files
    ensures |Unvisited(files, name, i + 1)| < |Unvisited(files, name, i)|
  {
    var file := name(i);
    assert Names(name, 0, i + 1) == Names(name, 0, i) + {file};
    assert file !in Names(name, 0, i);
    assert Unvisited(files, name, i) == Unvisited(files, name, i + 1) + {file};
  }

  /** The index the loop requests next from cursor `i`: the branch
      `os.path.exists(filename)` moves the cursor past every image that is
      already on disk. The result is an index from `i` on whose file does
      not exist; `NextMissingSkips` shows that it is the first. */
  function NextMissing(files: Files, name: nat -> string, i: nat): (j: nat)
    requires Injective(name)
    ensures i <= j && name(j) !in files
    decreases |Unvisited(files, name, i)|
  {
    if name(i) in files then
      SkipShrinks(files, name, i);
      NextMissing(files, name, i + 1)
    else
      i
  }

  /** Every index the cursor moves past has its file on disk. */
  lemma {:induction false} NextMissingSkips(files: Files, name: nat -> string, i: nat)
    requires Injective(name)
    ensures forall k :: i <= k < NextMissing(files, name, i) ==> name(k) in files
    decreases |Unvisited(files, name, i)|
  {
    if name(i) in files {
      SkipShrinks(files, name, i);
      NextMissingSkips(files, name, i + 1);
    }
  }

  /** A missing index is its own next missing index. */
  lemma NextMissingHere(files: Files, name: nat -> string, i: nat)
    requires Injective(name)
    requires name(i) !in files
    ensures NextMissing(files, name, i) == i
  {
  }

  /** The first missing index is unique: any index that is missing and has
      only existing files before it is the one `NextMissing` finds. */
  lemma NextMissingUnique(files: Files, name: nat -> string, i: nat, j: nat)
    requires Injective(name)
    requires i <= j && name(j) !in files
    requires forall k :: i <= k < j ==> name(k) in files
    ensures NextMissing(files, name, i) == j
  {
    NextMissingSkips(files, name, i);
  }

  /** A run seen after `probes` requests had already been made. */
  function After(probes: seq<nat>, r: RunResult): (s: RunResult)
    ensures s.outcome == r.outcome && s.files == r.files && s.probes == probes + r.probes
  {
    r.(probes := probes + r.probes)
  }

  /** The download loop of `download_book` from cursor `i`, as a function of
      the files present and the replies still to come. The cursor first
      moves past the images already on disk; the next image is then
      requested. A 200 response is written and the cursor advances; another
      status ends the loop; an exception retries the same index. */
  function Run(files: Files, name: nat -> string, i: nat, replies: seq<Reply>): RunResult
    requires Injective(name)
    decreases |replies|
  {
    var j := NextMissing(files, name, i);
    if replies == [] then
      RunResult(OutOfReplies(j), files, [])
    else
      match replies[0]
      case ConnectionError =>
        After([j], Run(files, name, j, replies[1..]))
      case Response(status, body) =>
        if status == 200 then
          After([j], Run(files[name(j) := body], name, j + 1, replies[1..]))
        else
          RunResult(Stopped(j), files, [j])
  }

  /** Where the loop ends: at or after the first missing index, and at an
      index whose file does not exist when the loop ends. */
  lemma {:induction false} RunEnd(files: Files, name: nat -> string, i: nat, replies: seq<Reply>)
    requires Injective(name)
    ensures var r := Run(files, name, i, replies);
      NextMissing(files, name, i) <= r.outcome.at && name(r.outcome.at) !in r.files
    decreases |replies|
  {
    var j := NextMissing(files, name, i);
    var r := Run(files, name, i, replies);
    if replies != [] && replies[0].ConnectionError? {
      RunEnd(files, name, j, replies[1..]);
      NextMissingHere(files, name, j);
    } else if replies != [] && replies[0].status == 200 {
      var files' := files[name(j) := replies[0].body];
      RunEnd(files', name, j + 1, replies[1..]);
    }
  }

  /** The loop never changes or removes a file that existed before it. */
  lemma {:induction false} RunKeepsFiles(files: Files, name: nat -> string, i: nat, replies: seq<Reply>)
    requires Injective(name)
    ensures var r := Run(files, name, i, replies);
      forall p :: p in files ==> p in r.files && r.files[p] == files[p]
    decreases |replies|
  {
    var j := NextMissing(files, name, i);
    if replies != [] && replies[0].ConnectionError? {
      RunKeepsFiles(files, name, j, replies[1..]);
    } else if replies != [] && replies[0].status == 200 {
      var files' := files[name(j) := replies[0].body];
      RunKeepsFiles(files', name, j + 1, replies[1..]);
    }
  }

  /** The files after the loop: the files of the indices from `i` up to the
      final cursor all exist, and no other file is added. */
  lemma {:induction false} RunFiles(files: Files, name: nat -> string, i: nat, replies: seq<Reply>)
    requires Injective(name)
    ensures var r := Run(files, name, i, replies);
      r.files.Keys == files.Keys + Names(name, i, r.outcome.at)
    decreases |replies|, 1
  {
    if replies != [] && replies[0].ConnectionError? {
      RunFilesRetry(files, name, i, replies);
    } else if replies != [] && replies[0].status == 200 {
      RunFilesWrite(files, name, i, replies);
    } else {
      var j := NextMissing(files, name, i);
      NextMissingSkips(files, name, i);
      NamesPresent(files, name, i, j, j);
      assert Names(name, j, j) == {};
    }
  }

  /** `RunFiles` when the first reply is an exception. */
  lemma {:induction false} RunFilesRetry(files: Files, name: nat -> string, i: nat, replies: seq<Reply>)
    requires Injective(name)
    requires replies != [] && replies[0].ConnectionError?
    ensures var r := Run(files, name, i, replies);
      r.files.Keys == files.Keys + Names(name, i, r.outcome.at)
    decreases |replies|, 0
  {
    var j := NextMissing(files, name, i);
    RunFiles(files, name, j, replies[1..]);
    RunEnd(files, name, j, replies[1..]);
    var s := Run(files, name, j, replies[1..]);
    assert Run(files, name, i, replies) == After([j], s);
    NextMissingHere(files, name, j);
    NextMissingSkips(files, name, i);
    NamesPresent(files, name, i, j, s.outcome.at);
  }

  /** `RunFiles` when the first reply is a 200. */
  lemma {:induction false} RunFilesWrite(files: Files, name: nat -> string, i: nat, replies: seq<Reply>)
    requires Injective(name)
    requires replies != [] && replies[0].Response? && replies[0].status == 200
    ensures var r := Run(files, name, i, replies);
      r.files.Keys == files.Keys + Names(name, i, r.outcome.at)
    decreases |replies|, 0
  {
    var j := NextMissing(files, name, i);
    var files' := files[name(j) := replies[0].body];
    RunFiles(files', name, j + 1, replies[1..]);
    RunEnd(files', name, j + 1, replies[1..]);
    var s := Run(files', name, j + 1, replies[1..]);
    assert Run(files, name, i, replies) == After([j], s);
    NextMissingSkips(files, name, i);
    KeysAfterStep(files, name, i, j, s.outcome.at, files'.Keys, s.files.Keys);
  }

  /** The key arithmetic of `RunFilesWrite`: the existing files below `j`,
      then the file of `j` written, then the files from `j + 1` to `k`. */
  lemma KeysAfterStep(files: Files, name: nat -> string, i: nat, j: nat, k: nat,
                      written: set<string>, final: set<string>)
    requires i <= j < k && forall m :: i <= m < j ==> name(m) in files
    requires written == files.Keys + {name(j)}
    requires final == written + Names(name, j + 1, k)
    ensures final == files.Keys + Names(name, i, k)
  {
    NamesSplit(name, j, k);
    NamesPresent(files, name, i, j, k);
    KeysAfterWrite(files.Keys, name(j), Names(name, j + 1, k), written, final);
  }

  /** The loop makes at most one request per reply, and uses them all
      when it ends for lack of replies. */
  lemma {:induction false} RunProbesCount(files: Files, name: nat -> string, i: nat, replies: seq<Reply>)
    requires Injective(name)
    ensures var r := Run(files, name, i, replies);
      |r.probes| <= |replies| && (r.outcome.OutOfReplies? ==> |r.probes| == |replies|)
    decreases |replies|
  {
    var j := NextMissing(files, name, i);
    if replies != [] && replies[0].ConnectionError? {
      RunProbesCount(files, name, j, replies[1..]);
    } else if replies != [] && replies[0].status == 200 {
      RunProbesCount(files[name(j) := replies[0].body], name, j + 1, replies[1..]);
    }
  }

  /** The requests of a run are all for indices from `lo` up to where it
      ended whose files were missing from `files`, and the first is for
      `lo` itself. */
  ghost predicate Within(files: Files, name: nat -> string, lo: nat, r: RunResult) {
    && (forall m :: 0 <= m < |r.probes| ==>
          lo <= r.probes[m] <= r.outcome.at && name(r.probes[m]) !in files)
    && (|r.probes| > 0 ==> r.probes[0] == lo)
  }

  /** Prefixing a request for a missing index `j` at or below the indices
      of the rest keeps the requests within bounds. */
  lemma WithinAfter(files: Files, later: Files, name: nat -> string, j: nat, lo: nat, s: RunResult)
    requires Within(later, name, lo, s) && j <= lo <= s.outcome.at
    requires name(j) !in files && files.Keys <= later.Keys
    ensures Within(files, name, j, After([j], s))
  {
    var r := After([j], s);
    assert forall m :: 1 <= m < |r.probes| ==> r.probes[m] == s.probes[m - 1];
  }

  /** Every request is for an index from the first missing one up to the
      final cursor whose file did not exist before the loop; the first is
      for the first missing index itself. */
  lemma {:induction false} RunProbesRange(files: Files, name: nat -> string, i: nat, replies: seq<Reply>)
    requires Injective(name)
    ensures Within(files, name, NextMissing(files, name, i), Run(files, name, i, replies))
    decreases |replies|, 1
  {
    if replies != [] && replies[0].ConnectionError? {
      RunProbesRangeRetry(files, name, i, replies);
    } else if replies != [] && replies[0].status == 200 {
      RunProbesRangeWrite(files, name, i, replies);
    }
  }

  /** `RunProbesRange` when the first reply is an exception. */
  lemma {:induction false} RunProbesRangeRetry(files: Files, name: nat -> string, i: nat, replies: seq<Reply>)
    requires Injective(name)
    requires replies != [] && replies[0].ConnectionError?
    ensures Within(files, name, NextMissing(files, name, i), Run(files, name, i, replies))
    decreases |replies|, 0
  {
    var j := NextMissing(files, name, i);
    RunProbesRange(files, name, j, replies[1..]);
    var s := Run(files, name, j, replies[1..]);
    assert Run(files, name, i, replies) == After([j], s);
    RunEnd(files, name, j, replies[1..]);
    NextMissingHere(files, name, j);
    WithinAfter(files, files, name, j, j, s);
  }

  /** `RunProbesRange` when the first reply is a 200. */
  lemma {:induction false} RunProbesRangeWrite(files: Files, name: nat -> string, i: nat, replies: seq<Reply>)
    requires Injective(name)
    requires replies != [] && replies[0].Response? && replies[0].status == 200
    ensures Within(files, name, NextMissing(files, name, i), Run(files, name, i, replies))
    decreases |replies|, 0
  {
    var j := NextMissing(files, name, i);
    var files' := files[name(j) := replies[0].body];
    RunProbesRange(files', name, j + 1, replies[1..]);
    var s := Run(files', name, j + 1, replies[1..]);
    assert Run(files, name, i, replies) == After([j], s);
    RunEnd(files', name, j + 1, replies[1..]);
    WithinAfter(files, files', name, j, NextMissing(files', name, j + 1), s);
  }

  /** Request `m` and the one after it follow reply `m`: after an exception
      the next request is for the same index; after a response it is for a
      higher index, and that response was a 200. */
  ghost predicate StepFollows(replies: seq<Reply>, probes: seq<nat>, m: int)
    requires 0 <= m < |probes| - 1 && m < |replies|
  {
    && (replies[m].ConnectionError? ==> probes[m + 1] == probes[m])
    && (replies[m].Response? ==> replies[m].status == 200 && probes[m] < probes[m + 1])
  }

  /** How the requests of a run follow the replies they got, request by
      request; a run that stopped made its last request for the stopping
      index and got a status other than 200 for it. */
  ghost predicate FollowsReplies(replies: seq<Reply>, r: RunResult) {
    && (forall m :: 0 <= m < |r.probes| - 1 && m < |replies| ==> StepFollows(replies, r.probes, m))
    && (r.outcome.Stopped? ==>
          var last := |r.probes| - 1;
          0 <= last < |replies| && r.probes[last] == r.outcome.at &&
          replies[last].Response? && replies[last].status != 200)
  }

  /** Prefixing one request keeps the order when the request that follows
      it is for the same index after an exception, or for a higher index
      after a 200. */
  lemma FollowsRepliesAfter(replies: seq<Reply>, j: nat, s: RunResult)
    requires replies != [] && FollowsReplies(replies[1..], s)
    requires replies[0].ConnectionError? && |s.probes| > 0 ==> s.probes[0] == j
    requires replies[0].Response? ==> replies[0].status == 200 && (|s.probes| > 0 ==> j < s.probes[0])
    ensures FollowsReplies(replies, After([j], s))
  {
    var r := After([j], s);
    forall m | 0 <= m < |r.probes| - 1 && m < |replies| ensures StepFollows(replies, r.probes, m) {
      if m > 0 {
        var n := m - 1;
        assert StepFollows(replies[1..], s.probes, n);
        assert replies[m] == replies[1..][n];
        assert r.probes[m] == s.probes[n] && r.probes[m + 1] == s.probes[n + 1];
      }
    }
    if r.outcome.Stopped? {
      var last := |s.probes|;
      assert r.probes[last] == s.probes[last - 1];
      assert replies[last] == replies[1..][last - 1];
    }
  }

  /** The requests of every run follow its replies. */
  lemma {:induction false} RunProbesOrder(files: Files, name: nat -> string, i: nat, replies: seq<Reply>)
    requires Injective(name)
    ensures FollowsReplies(replies, Run(files, name, i, replies))
    decreases |replies|, 1
  {
    if replies != [] && replies[0].ConnectionError? {
      RunProbesOrderRetry(files, name, i, replies);
    } else if replies != [] && replies[0].status == 200 {
      RunProbesOrderWrite(files, name, i, replies);
    }
  }

  /** `RunProbesOrder` when the first reply is an exception. */
  lemma {:induction false} RunProbesOrderRetry(files: Files, name: nat -> string, i: nat, replies: seq<Reply>)
    requires Injective(name)
    requires replies != [] && replies[0].ConnectionError?
    ensures FollowsReplies(replies, Run(files, name, i, replies))
    decreases |replies|, 0
  {
    var j := NextMissing(files, name, i);
    RunProbesOrder(files, name, j, replies[1..]);
    var s := Run(files, name, j, replies[1..]);
    assert Run(files, name, i, replies) == After([j], s);
    RunProbesRange(files, name, j, replies[1..]);
    NextMissingHere(files, name, j);
    FollowsRepliesAfter(replies, j, s);
  }

  /** `RunProbesOrder` when the first reply is a 200. */
  lemma {:induction false} RunProbesOrderWrite(files: Files, name: nat -> string, i: nat, replies: seq<Reply>)
    requires Injective(name)
    requires replies != [] && replies[0].Response? && replies[0].status == 200
    ensures FollowsReplies(replies, Run(files, name, i, replies))
    decreases |replies|, 0
  {
    var j := NextMissing(files, name, i);
    var files' := files[name(j) := replies[0].body];
    RunProbesOrder(files', name, j + 1, replies[1..]);
    var s := Run(files', name, j + 1, replies[1..]);
    assert Run(files, name, i, replies) == After([j], s);
    RunProbesRange(files', name, j + 1, replies[1..]);
    FollowsRepliesAfter(replies, j, s);
  }

  /** Every 200 body `replies[m]` of a run is, at its end, the contents
      of the file of the index requested with it. */
  ghost predicate Stored(name: nat -> string, replies: seq<Reply>, r: RunResult) {
    forall m :: 0 <= m < |r.probes| && m < |replies| && replies[m].Response? && replies[m].status == 200 ==>
      name(r.probes[m]) in r.files && r.files[name(r.probes[m])] == replies[m].body
  }

  /** Prefixing a request keeps the bodies stored, provided the first reply
      is either no 200 or is the final contents of the file of `j`. */
  lemma StoredAfter(name: nat -> string, replies: seq<Reply>, j: nat, s: RunResult)
    requires replies != [] && Stored(name, replies[1..], s)
    requires replies[0].Response? && replies[0].status == 200 ==>
      name(j) in s.files && s.files[name(j)] == replies[0].body
    ensures Stored(name, replies, After([j], s))
  {
    var r := After([j], s);
    forall m | 1 <= m < |r.probes| && m < |replies| && replies[m].Response? && replies[m].status == 200
      ensures name(r.probes[m]) in r.files && r.files[name(r.probes[m])] == replies[m].body
    {
      assert replies[m] == replies[1..][m - 1] && r.probes[m] == s.probes[m - 1];
    }
  }

  /** Every 200 body the loop received ends up, unchanged, in the file of
      the index it was requested for. */
  lemma {:induction false} RunContents(files: Files, name: nat -> string, i: nat, replies: seq<Reply>)
    requires Injective(name)
    ensures Stored(name, replies, Run(files, name, i, replies))
    decreases |replies|, 1
  {
    if replies != [] && replies[0].ConnectionError? {
      RunContentsRetry(files, name, i, replies);
    } else if replies != [] && replies[0].status == 200 {
      RunContentsWrite(files, name, i, replies);
    }
  }

  /** `RunContents` when the first reply is an exception. */
  lemma {:induction false} RunContentsRetry(files: Files, name: nat -> string, i: nat, replies: seq<Reply>)
    requires Injective(name)
    requires replies != [] && replies[0].ConnectionError?
    ensures Stored(name, replies, Run(files, name, i, replies))
    decreases |replies|, 0
  {
    var j := NextMissing(files, name, i);
    RunContents(files, name, j, replies[1..]);
    var s := Run(files, name, j, replies[1..]);
    assert Run(files, name, i, replies) == After([j], s);
    StoredAfter(name, replies, j, s);
  }

  /** `RunContents` when the first reply is a 200. */
  lemma {:induction false} RunContentsWrite(files: Files, name: nat -> string, i: nat, replies: seq<Reply>)
    requires Injective(name)
    requires replies != [] && replies[0].Response? && replies[0].status == 200
    ensures Stored(name, replies, Run(files, name, i, replies))
    decreases |replies|, 0
  {
    var j := NextMissing(files, name, i);
    var files' := files[name(j) := replies[0].body];
    RunContents(files', name, j + 1, replies[1..]);
    var s := Run(files', name, j + 1, replies[1..]);
    assert Run(files, name, i, replies) == After([j], s);
    RunKeepsFiles(files', name, j + 1, replies[1..]);
    assert name(j) in files' && files'[name(j)] == replies[0].body;
    StoredAfter(name, replies, j, s);
  }

  /** Every index from `lo` up to where the run ended whose file is missing
      from `files` was requested and answered with a 200. */
  ghost predicate Covers(files: Files, name: nat -> string, lo: nat, replies: seq<Reply>, r: RunResult) {
    forall k :: lo <= k < r.outcome.at && name(k) !in files ==>
      exists m ::
        0 <= m < |r.probes| && m < |replies| && r.probes[m] == k &&
        replies[m].Response? && replies[m].status == 200
  }

  /** Prefixing a request for `j` keeps every missing index covered: the
      indices before `j` were not missing, and `j` itself is covered by the
      new request when the rest of the run starts after it. */
  lemma CoversAfter(files: Files, later: Files, name: nat -> string, lo: nat, j: nat, next: nat,
                    replies: seq<Reply>, s: RunResult)
    requires replies != [] && Covers(later, name, next, replies[1..], s)
    requires lo <= j <= next && forall k :: lo <= k < j ==> name(k) in files
    requires forall k :: j <= k < next && name(k) !in files ==> k == j
    requires forall k :: next <= k && name(k) !in files ==> name(k) !in later
    requires j < next ==> replies[0].Response? && replies[0].status == 200
    ensures Covers(files, name, lo, replies, After([j], s))
  {
    var r := After([j], s);
    forall k | lo <= k < r.outcome.at && name(k) !in files
      ensures exists m ::
        0 <= m < |r.probes| && m < |replies| && r.probes[m] == k &&
        replies[m].Response? && replies[m].status == 200
    {
      if k < next {
        assert k == j && r.probes[0] == k;
      } else {
        var m :| 0 <= m < |s.probes| && m < |replies[1..]| && s.probes[m] == k &&
          replies[1..][m].Response? && replies[1..][m].status == 200;
        assert r.probes[m + 1] == k && replies[m + 1] == replies[1..][m];
      }
    }
  }

  /** Every index from `i` up to the final cursor whose file was missing was
      requested and answered with a 200: the cursor rises past an index only
      when its file existed or was just written. */
  lemma {:induction false} RunWritesEachMissing(files: Files, name: nat -> string, i: nat, replies: seq<Reply>)
    requires Injective(name)
    ensures Covers(files, name, i, replies, Run(files, name, i, replies))
    decreases |replies|, 1
  {
    if replies != [] && replies[0].ConnectionError? {
      RunWritesEachMissingRetry(files, name, i, replies);
    } else if replies != [] && replies[0].status == 200 {
      RunWritesEachMissingWrite(files, name, i, replies);
    } else {
      NextMissingSkips(files, name, i);
    }
  }

  /** `RunWritesEachMissing` when the first reply is an exception. */
  lemma {:induction false} RunWritesEachMissingRetry(files: Files, name: nat -> string, i: nat, replies: seq<Reply>)
    requires Injective(name)
    requires replies != [] && replies[0].ConnectionError?
    ensures Covers(files, name, i, replies, Run(files, name, i, replies))
    decreases |replies|, 0
  {
    var j := NextMissing(files, name, i);
    RunWritesEachMissing(files, name, j, replies[1..]);
    var s := Run(files, name, j, replies[1..]);
    assert Run(files, name, i, replies) == After([j], s);
    NextMissingSkips(files, name, i);
    CoversAfter(files, files, name, i, j, j, replies, s);
  }

  /** `RunWritesEachMissing` when the first reply is a 200. */
  lemma {:induction false} RunWritesEachMissingWrite(files: Files, name: nat -> string, i: nat, replies: seq<Reply>)
    requires Injective(name)
    requires replies != [] && replies[0].Response? && replies[0].status == 200
    ensures Covers(files, name, i, replies, Run(files, name, i, replies))
    decreases |replies|, 0
  {
    var j := NextMissing(files, name, i);
    var files' := files[name(j) := replies[0].body];
    RunWritesEachMissing(files', name, j + 1, replies[1..]);
    var s := Run(files', name, j + 1, replies[1..]);
    assert Run(files, name, i, replies) == After([j], s);
    NextMissingSkips(files, name, i);
    CoversAfter(files, files', name, i, j, j + 1, replies, s);
  }

  /** The replies `Response(200, b)` for each body `b`, in order. */
  function Served(bodies: seq<Bytes>): (replies: seq<Reply>)
    ensures |replies| == |bodies|
    ensures forall m :: 0 <= m < |bodies| ==> replies[m] == Response(200, bodies[m])
  {
    if bodies == [] then [] else [Response(200, bodies[0])] + Served(bodies[1..])
  }

  /** The indices `lo`, `lo + 1`, ..., `hi - 1`. */
  function Range(lo: nat, hi: nat): (s: seq<nat>)
    requires lo <= hi
    ensures |s| == hi - lo && forall m :: 0 <= m < |s| ==> s[m] == lo + m
    decreases hi - lo
  {
    if lo == hi then [] else [lo] + Range(lo + 1, hi)
  }

  /** The requests and the end of a fresh download: when none of the files
      `i .. i + N` exists and the server has images `i .. i + N - 1` and
      then answers with another status, the loop requests exactly
      `i .. i + N` and stops at `i + N`. */
  lemma {:induction false} RunFreshRequests(files: Files, name: nat -> string, i: nat,
                                            bodies: seq<Bytes>, status: int, body: Bytes, rest: seq<Reply>)
    requires Injective(name) && status != 200
    requires forall k :: i <= k <= i + |bodies| ==> name(k) !in files
    ensures var r := Run(files, name, i, Served(bodies) + [Response(status, body)] + rest);
      r.outcome == Stopped(i + |bodies|) && r.probes == Range(i, i + |bodies| + 1)
    decreases |bodies|
  {
    var replies := Served(bodies) + [Response(status, body)] + rest;
    NextMissingHere(files, name, i);
    if bodies == [] {
      assert replies[0] == Response(status, body);
      assert Range(i, i + 1) == [i] + Range(i + 1, i + 1);
    } else {
      var files' := files[name(i) := bodies[0]];
      var replies' := Served(bodies[1..]) + [Response(status, body)] + rest;
      assert replies == [Response(200, bodies[0])] + replies';
      forall k | i + 1 <= k <= i + |bodies| ensures name(k) !in files' {
        assert name(k) != name(i);
      }
      RunFreshRequests(files', name, i + 1, bodies[1..], status, body, rest);
      var r, r' := Run(files, name, i, replies), Run(files', name, i + 1, replies');
      assert r == After([i], r');
      assert r.probes == [i] + r'.probes == [i] + Range(i + 1, i + |bodies| + 1);
    }
  }

  /** A fresh download writes exactly the files `i .. i + N - 1`, each with
      the body served for it, and keeps every other file. */
  lemma RunFreshDirectory(files: Files, name: nat -> string, i: nat,
                          bodies: seq<Bytes>, status: int, body: Bytes, rest: seq<Reply>)
    requires Injective(name) && status != 200
    requires forall k :: i <= k <= i + |bodies| ==> name(k) !in files
    ensures var r := Run(files, name, i, Served(bodies) + [Response(status, body)] + rest);
      && r.outcome == Stopped(i + |bodies|)
      && r.probes == Range(i, i + |bodies| + 1)
      && r.files.Keys == files.Keys + Names(name, i, i + |bodies|)
      && (forall m :: 0 <= m < |bodies| ==> r.files[name(i + m)] == bodies[m])
      && (forall p :: p in files ==> r.files[p] == files[p])
  {
    var replies := Served(bodies) + [Response(status, body)] + rest;
    RunFreshRequests(files, name, i, bodies, status, body, rest);
    RunFiles(files, name, i, replies);
    RunContents(files, name, i, replies);
    RunKeepsFiles(files, name, i, replies);
    var r := Run(files, name, i, replies);
    forall m | 0 <= m < |bodies| ensures r.files[name(i + m)] == bodies[m] {
      assert r.probes[m] == i + m && replies[m] == Response(200, bodies[m]);
    }
  }

  /** Moving past an existing file does not change the next request. */
  lemma NextMissingPast(files: Files, name: nat -> string, i: nat)
    requires Injective(name) && name(i) in files
    ensures NextMissing(files, name, i) == NextMissing(files, name, i + 1)
  {
  }

  /** Resuming: when the files of `i .. k - 1` already exist, the loop from
      `i` does exactly what the loop from `k` does; in particular it makes
      no request for any of those indices. */
  lemma RunResume(files: Files, name: nat -> string, i: nat, k: nat, replies: seq<Reply>)
    requires Injective(name)
    requires i <= k
    requires forall j :: i <= j < k ==> name(j) in files
    ensures Run(files, name, i, replies) == Run(files, name, k, replies)
    ensures forall m :: 0 <= m < |Run(files, name, i, replies).probes| ==>
      Run(files, name, i, replies).probes[m] >= k
  {
    var j := NextMissing(files, name, k);
    NextMissingSkips(files, name, k);
    NextMissingUnique(files, name, i, j);
    RunProbesRange(files, name, k, replies);
  }

  /** The directory: an object whose files map the loop reads and updates. */
  class Disk {
    var files: Files

    constructor (files: Files)
      ensures this.files == files
    {
      this.files := files;
    }

    /** `os.path.exists(path)`. */
    method Exists(path: string) returns (b: bool)
      ensures b == (path in files)
    {
      b := path in files;
    }

    /** `open(path, 'wb')` and `write(content)`: the file now holds exactly
        `content`, and no other file changes. */
    method Write(path: string, content: Bytes)
      modifies this
      ensures files == old(files)[path := content]
    {
      files := files[path := content];
    }
  }

  /** The URLs asked for by requests with the given cursor values. */
  function Urls(bookUrl: string, probes: seq<nat>): (urls: seq<string>)
    ensures |urls| == |probes|
    ensures forall m :: 0 <= m < |probes| ==> urls[m] == RemoteName(bookUrl, probes[m])
  {
    if probes == [] then [] else [RemoteName(bookUrl, probes[0])] + Urls(bookUrl, probes[1..])
  }

  /** The local file of each index in directory `dirPath`, as a function.
      Distinct indices get distinct files. */
  function ImageNames(dirPath: string): (name: nat -> string)
    ensures Injective(name)
    ensures forall i: nat :: name(i) == LocalName(dirPath, i)
  {
    LocalNamesInjective(dirPath);
    (i: nat) => LocalName(dirPath, i)
  }

  /** One pass of the loop body, as an equation on runs: an existing file
      is skipped; otherwise the image is requested, and the reply decides
      whether the loop retries, writes and advances, or stops. */
  lemma RunSkip(files: Files, name: nat -> string, i: nat, replies: seq<Reply>)
    requires Injective(name) && name(i) in files
    ensures Run(files, name, i, replies) == Run(files, name, i + 1, replies)
  {
    NextMissingPast(files, name, i);
  }

  lemma RunOut(files: Files, name: nat -> string, i: nat)
    requires Injective(name) && name(i) !in files
    ensures Run(files, name, i, []) == RunResult(OutOfReplies(i), files, [])
  {
    NextMissingHere(files, name, i);
  }

  /** An exception to request `n`: the request is recorded and the same
      index is asked for again, with the replies after it. */
  lemma RunRetry(total: RunResult, probes: seq<nat>, files: Files, name: nat -> string, i: nat,
                 replies: seq<Reply>, n: nat)
    requires Injective(name) && name(i) !in files
    requires n < |replies| && replies[n].ConnectionError?
    requires total == After(probes, Run(files, name, i, replies[n..]))
    ensures total == After(probes + [i], Run(files, name, i, replies[n + 1..]))
  {
    NextMissingHere(files, name, i);
    assert replies[n..][1..] == replies[n + 1..];
    AfterAfter(probes, [i], Run(files, name, i, replies[n + 1..]));
  }

  /** A 200 response to request `n`: the request is recorded, the body is
      written to the file of `i` and the loop goes on from `i + 1`. */
  lemma RunWrite(total: RunResult, probes: seq<nat>, files: Files, name: nat -> string, i: nat,
                 replies: seq<Reply>, n: nat, file: string, body: Bytes)
    requires Injective(name) && name(i) !in files && file == name(i)
    requires n < |replies| && replies[n] == Response(200, body)
    requires total == After(probes, Run(files, name, i, replies[n..]))
    ensures total == After(probes + [i], Run(files[file := body], name, i + 1, replies[n + 1..]))
  {
    NextMissingHere(files, name, i);
    assert replies[n..][1..] == replies[n + 1..];
    AfterAfter(probes, [i], Run(files[file := body], name, i + 1, replies[n + 1..]));
  }

  lemma RunStop(files: Files, name: nat -> string, i: nat, replies: seq<Reply>)
    requires Injective(name) && name(i) !in files
    requires replies != [] && replies[0].Response? && replies[0].status != 200
    ensures Run(files, name, i, replies) == RunResult(Stopped(i), files, [i])
  {
    NextMissingHere(files, name, i);
  }

  /** Requests made in two stretches are the requests of both in order. */
  lemma AfterAfter(p: seq<nat>, q: seq<nat>, r: RunResult)
    ensures After(p, After(q, r)) == After(p + q, r)
  {
    assert p + (q + r.probes) == (p + q) + r.probes;
  }

  /** What every run of the loop from image 1 leaves behind: the old files
      untouched, every image below the final cursor on disk and no other
      file added, the final cursor's file missing, and, for a stop, the last
      request made for the stopping index. */
  lemma RunSummary(files: Files, name: nat -> string, replies: seq<Reply>)
    requires Injective(name)
    ensures var r := Run(files, name, 1, replies);
      && (forall p :: p in files ==> p in r.files && r.files[p] == files[p])
      && (forall j :: 1 <= j < r.outcome.at ==> name(j) in r.files)
      && r.files.Keys == files.Keys + Names(name, 1, r.outcome.at)
      && name(r.outcome.at) !in r.files
      && (r.outcome.Stopped? ==> |r.probes| > 0 && r.probes[|r.probes| - 1] == r.outcome.at)
  {
    var r := Run(files, name, 1, replies);
    RunKeepsFiles(files, name, 1, replies);
    RunFiles(files, name, 1, replies);
    RunEnd(files, name, 1, replies);
    RunProbesOrder(files, name, 1, replies);
    forall j | 1 <= j < r.outcome.at ensures name(j) in r.files {
      assert name(j) in Names(name, 1, r.outcome.at);
    }
  }

  /** The `while True` loop of `download_book`: cursor `i` from 1, skip an
      existing file, otherwise request the image; on 200 write it, on
      another status stop, on an exception retry the same index. Returns how
      the loop ended and the URLs requested, in order. */
  method DownloadImages(disk: Disk, bookUrl: string, dirPath: string, replies: seq<Reply>)
    returns (outcome: Outcome, requests: seq<string>)
    modifies disk
    ensures var r := Run(old(disk.files), ImageNames(dirPath), 1, replies);
      outcome == r.outcome && disk.files == r.files && requests == Urls(bookUrl, r.probes)
    ensures forall p :: p in old(disk.files) ==> p in disk.files && disk.files[p] == old(disk.files)[p]
    ensures forall j :: 1 <= j < outcome.at ==> LocalName(dirPath, j) in disk.files
    ensures disk.files.Keys == old(disk.files).Keys + Names(ImageNames(dirPath), 1, outcome.at)
    ensures LocalName(dirPath, outcome.at) !in disk.files
    ensures outcome.Stopped? ==> |requests| > 0 && requests[|requests| - 1] == RemoteName(bookUrl, outcome.at)
  {
    var name := ImageNames(dirPath);
    var i: nat := 1;
    var n: nat := 0;
    requests := [];
    ghost var probes: seq<nat> := [];
    ghost var start := disk.files;
    ghost var total := Run(start, name, 1, replies);
    while true
      invariant 1 <= i && n <= |replies|
      invariant total == After(probes, Run(disk.files, name, i, replies[n..]))
      invariant requests == Urls(bookUrl, probes)
      decreases |replies| - n, |Unvisited(disk.files, name, i)|
    {
      var filename := LocalName(dirPath, i);
      var present := disk.Exists(filename);
      if present {
        SkipShrinks(disk.files, name, i);
        RunSkip(disk.files, name, i, replies[n..]);
        i := i + 1;
        continue;
      }
      if n == |replies| {
        RunOut(disk.files, name, i);
        outcome := OutOfReplies(i);
        break;
      }
      var reply := replies[n];
      UrlsSnoc(bookUrl, probes, i);
      requests := requests + [RemoteName(bookUrl, i)];
      if reply.Response? && reply.status != 200 {
        assert replies[n..][0] == reply;
        RunStop(disk.files, name, i, replies[n..]);
        probes := probes + [i];
        outcome := Stopped(i);
        break;
      }
      if reply.ConnectionError? {
        RunRetry(total, probes, disk.files, name, i, replies, n);
        probes := probes + [i];
      } else {
        RunWrite(total, probes, disk.files, name, i, replies, n, filename, reply.body);
        disk.Write(filename, reply.body);
        probes := probes + [i];
        i := i + 1;
      }
      n := n + 1;
      assert total == After(probes, Run(disk.files, name, i, replies[n..]));
    }
    assert total == RunResult(outcome, disk.files, probes);
    DownloadSummary(start, bookUrl, dirPath, replies);
  }

  /** The facts `DownloadImages` promises, for the run it performs. */
  lemma DownloadSummary(files: Files, bookUrl: string, dirPath: string, replies: seq<Reply>)
    ensures var r := Run(files, ImageNames(dirPath), 1, replies);
      && (forall p :: p in files ==> p in r.files && r.files[p] == files[p])
      && (forall j :: 1 <= j < r.outcome.at ==> LocalName(dirPath, j) in r.files)
      && r.files.Keys == files.Keys + Names(ImageNames(dirPath), 1, r.outcome.at)
      && LocalName(dirPath, r.outcome.at) !in r.files
      && (r.outcome.Stopped? ==>
            var urls := Urls(bookUrl, r.probes);
            |urls| > 0 && urls[|urls| - 1] == RemoteName(bookUrl, r.outcome.at))
  {
    var name := ImageNames(dirPath);
    RunSummary(files, name, replies);
  }

  lemma UrlsSnoc(bookUrl: string, probes: seq<nat>, i: nat)
    ensures Urls(bookUrl, probes + [i]) == Urls(bookUrl, probes) + [RemoteName(bookUrl, i)]
  {
  }

  /** What fetching and parsing the book page gives: an exception (network
      or parse), or the text of the first `title` element when there is one. */
  datatype Page = PageError | Page(title: Option<string>)

  /** The result of `download_book` for one book: skipped because the page
      could not be fetched, or downloaded into `directory`. */
  datatype BookResult = Skipped | Downloaded(directory: string, outcome: Outcome, requests: seq<string>)

  /** `if not title: title = "Unknown_Book"`: a missing or empty title
      falls back to the placeholder. */
  function Title(found: Option<string>): (t: string)
    ensures t != []
    ensures found.Some? && found.value != [] ==> t == found.value
    ensures found.None? || found.value == [] ==> t == UnknownBook
  {
    if found.None? || found.value == [] then UnknownBook else found.value
  }

  /** Below `./`, a clean name adds neither a separator nor a space. */
  lemma DirectoryBelow(name: string)
    requires Clean(name)
    ensures forall k :: 2 <= k < |"./" + name| ==> ("./" + name)[k] != '/' && ("./" + name)[k] != ' '
  {
    forall k | 2 <= k < |"./" + name| ensures ("./" + name)[k] != '/' && ("./" + name)[k] != ' ' {
      assert ("./" + name)[k] == name[k - 2];
      assert '/' in InvalidChars;
    }
  }

  /** `os.path.join(".", sanitize_for_directory_name(title))`. The
      sanitised title never contains `/` or a space, so the directory is
      `./` followed by the clean name alone. That name may still be empty,
      `.` or `..`, which the sanitiser lets through. */
  function BookDirectory(title: string): (d: string)
    ensures d == "./" + Sanitize(title)
    ensures forall k :: 2 <= k < |d| ==> d[k] != '/' && d[k] != ' '
  {
    var name := Sanitize(title);
    JoinParts(".", name);
    assert JoinPrefix(".") == "./";
    DirectoryBelow(name);
    Join(".", name)
  }

  /** A page without a title, or with an empty one, is saved under
      `./Unknown_Book`. */
  lemma BookDirectoryFallback(found: Option<string>)
    requires found.None? || found.value == []
    ensures BookDirectory(Title(found)) == "./" + UnknownBook
  {
    var title := Title(found);
    SanitizeUnknownBook(title);
  }

  /** A title made only of whitespace is not empty, so it escapes the
      fallback, and it sanitises to nothing: its images go straight into the
      working directory. */
  lemma BookDirectoryBlankTitle(found: Option<string>)
    requires found.Some? && found.value != []
    requires forall k :: 0 <= k < |found.value| ==> IsSpace(found.value[k])
    ensures BookDirectory(Title(found)) == "./"
    ensures forall i: nat :: LocalName(BookDirectory(Title(found)), i) == "./" + ImageFile(i)
  {
    var title := found.value;
    var replaced := ReplaceInvalid(title);
    ReplaceInvalidKeepsSpaces(title);
    assert forall k :: 0 <= k < |replaced| ==> IsSpace(replaced[k]);
    StripUnique(replaced, 0, 0);
    forall i: nat ensures LocalName("./", i) == "./" + ImageFile(i) {
      LocalNameParts("./", i);
    }
  }

  /** The sanitiser keeps the title `..`, so the images of such a book go
      into the parent of the working directory, and those of a book titled
      `.` into the working directory itself. */
  lemma BookDirectoryDotDot(title: string, i: nat)
    requires title == ".." || title == "."
    ensures BookDirectory(title) == "./" + title
    ensures LocalName(BookDirectory(title), i) == "./" + title + "/" + ImageFile(i)
  {
    assert forall k :: 0 <= k < |title| ==> title[k] == '.';
    assert Clean(title) by {
      assert !IsSpace('.') && '.' !in InvalidChars;
    }
    SanitizeFixedPoint(title);
    LocalNameParts("./" + title, i);
  }

  /** For any other title the image `i` of the book is the file `i.jpg`
      inside the book's directory. */
  lemma BookImagePath(title: string, i: nat)
    requires Sanitize(title) != []
    ensures LocalName(BookDirectory(title), i) == BookDirectory(title) + "/" + ImageFile(i)
  {
    LocalNameParts(BookDirectory(title), i);
  }

  /** `download_book` for one book. When fetching or parsing the page
      fails, nothing is created and no image is requested. Otherwise the
      title, or its fallback, is sanitised into the directory name and the
      download loop runs there from image 1. */
  method DownloadBook(disk: Disk, bookUrl: string, page: Page, replies: seq<Reply>)
    returns (result: BookResult)
    modifies disk
    ensures page.PageError? ==> result == Skipped && disk.files == old(disk.files)
    ensures page.Page? ==>
      var d := BookDirectory(Title(page.title));
      var r := Run(old(disk.files), ImageNames(d), 1, replies);
      result == Downloaded(d, r.outcome, Urls(bookUrl, r.probes)) && disk.files == r.files
  {
    if page.PageError? {
      return Skipped;
    }
    var title: string;
    if page.title.None? || page.title.value == [] {
      title := UnknownBook;
    } else {
      title := page.title.value;
    }
    title := SanitizeForDirectoryName(title);
    var directoryPath := Join(".", title);
    var outcome, requests := DownloadImages(disk, bookUrl, directoryPath, replies);
    result := Downloaded(directoryPath, outcome, requests);
  }
}
