/**
 * File-name generation, the fork-join split of the file list into one
 * work list per thread, each thread's processing loop, and the channel
 * pipeline (read, number, merge) in its sequential meaning.
 *
 * Reading a file is a parameter `read`. The program's own `read_file`,
 * `ReadFile` below, always succeeds, so the error paths can only be taken
 * by other readers given for `read`.
 */
module ConcPar {
  import opened Wrappers
  import opened Decimal
  import opened Slices
  import Mandelbrot

  // ---------------------------------------------------------------------
  // get_filenames
  // ---------------------------------------------------------------------

  /** `format!("file_{}.txt", i)`. */
  function FileName(i: nat): string
  {
    "file_" + NatToString(i) + ".txt"
  }

  /** Different numbers give different file names. */
  lemma FileNameInjective(i: nat, j: nat)
    requires FileName(i) == FileName(j)
    ensures i == j
  {
    var s := FileName(i);
    assert NatToString(i) == s[5..|s| - 4] == NatToString(j);
    var max := if i < j then j else i;
    ParseNatToString(i, 0, max);
    ParseNatToString(j, 0, max);
  }

  /** `get_filenames`: the hundred names `file_0.txt` ... `file_99.txt`, in descending order when `reverse`. */
  method GetFilenames(reverse: bool) returns (filenames: seq<string>)
    ensures |filenames| == 100
    ensures forall k :: 0 <= k < 100 ==> filenames[k] == FileName(if reverse then 99 - k else k)
  {
    filenames := [];
    if reverse {
      var i := 100;
      while i > 0
        invariant 0 <= i <= 100 && |filenames| == 100 - i
        invariant forall k :: 0 <= k < |filenames| ==> filenames[k] == FileName(99 - k)
      {
        i := i - 1;
        filenames := filenames + [FileName(i)];
      }
    } else {
      for i := 0 to 100
        invariant |filenames| == i
        invariant forall k :: 0 <= k < i ==> filenames[k] == FileName(k)
      {
        filenames := filenames + [FileName(i)];
      }
    }
  }

  /** No name appears twice in either order, and the two orders are each other's reversal. */
  lemma FilenamesDistinct(forward: seq<string>, backward: seq<string>)
    requires |forward| == 100 && forall k :: 0 <= k < 100 ==> forward[k] == FileName(k)
    requires |backward| == 100 && forall k :: 0 <= k < 100 ==> backward[k] == FileName(99 - k)
    ensures forall i, j :: 0 <= i < j < 100 ==> forward[i] != forward[j] && backward[i] != backward[j]
    ensures forall k :: 0 <= k < 100 ==> backward[k] == forward[99 - k]
  {
    forall i, j | 0 <= i < j < 100
      ensures forward[i] != forward[j] && backward[i] != backward[j]
    {
      if forward[i] == forward[j] {
        FileNameInjective(i, j);
      }
      if backward[i] == backward[j] {
        FileNameInjective(99 - i, 99 - j);
      }
    }
  }

  // ---------------------------------------------------------------------
  // The fork-join split of process_files_handles
  // ---------------------------------------------------------------------

  const NTHREADS: nat := 8

  /** `(filenames.len() + NTHREADS - 1) / NTHREADS`: the number of names per thread, rounded up. */
  function ChunkSize(n: nat): (size: nat)
    ensures size * NTHREADS >= n
    ensures size > 0 ==> (size - 1) * NTHREADS < n
    ensures size > 0 <==> n > 0
  {
    (n + NTHREADS - 1) / NTHREADS
  }

  /** `filenames.chunks(chunk_size)`; a chunk size of zero, from an empty list, makes `chunks` panic. */
  function Worklists(filenames: seq<string>): seq<seq<string>>
    requires |filenames| > 0
  {
    Chunks(filenames, ChunkSize(|filenames|))
  }

  /**
   * The work lists hand out every name once and in order; there are at
   * most `NTHREADS` of them, each non-empty, and all but the last are full.
   */
  lemma WorklistsPartition(filenames: seq<string>)
    requires |filenames| > 0
    ensures Flatten(Worklists(filenames)) == filenames
    ensures 0 < |Worklists(filenames)| <= NTHREADS
    ensures forall k :: 0 <= k < |Worklists(filenames)| ==> 0 < |Worklists(filenames)[k]| <= ChunkSize(|filenames|)
    ensures forall k :: 0 <= k < |Worklists(filenames)| - 1 ==> |Worklists(filenames)[k]| == ChunkSize(|filenames|)
  {
    var size := ChunkSize(|filenames|);
    FlattenChunks(filenames, size);
    ChunkCountBound(filenames, size, NTHREADS);
    forall k | 0 <= k < |Worklists(filenames)|
      ensures 0 < |Worklists(filenames)[k]| <= size
      ensures k < |Worklists(filenames)| - 1 ==> |Worklists(filenames)[k]| == size
    {
      ChunkLength(filenames, size, k);
    }
  }

  /** The hundred names make eight work lists: seven of 13 and a last one of 9. */
  lemma HundredFiles(filenames: seq<string>)
    requires |filenames| == 100
    ensures ChunkSize(100) == 13
    ensures |Worklists(filenames)| == 8
    ensures |Worklists(filenames)[7]| == 9
  {
    ChunkCount(filenames, 13);
    ChunkAt(filenames, 13, 7);
  }

  // ---------------------------------------------------------------------
  // Processing a work list
  // ---------------------------------------------------------------------

  datatype IoError = IoError(message: string)

  /** `read_file`: "Thread:  {thread_id}, File: {filename}", never an error. */
  function ReadFile(filename: string, threadId: nat): (r: Result<string, IoError>)
    ensures r.Ok?
  {
    Ok("Thread:  " + NatToString(threadId) + ", File: " + filename)
  }

  /** `process_file`: the line it prints, or the reader's error passed on by `?`. */
  function ProcessFile<E>(filename: string, threadId: nat, read: (string, nat) -> Result<string, E>): (r: Result<string, E>)
    ensures r == read(filename, threadId)
  {
    match read(filename, threadId)
    case Ok(text) => Ok(text)
    case Err(e) => Err(e)
  }

  /** The index of the first name `read` fails on, if any. */
  function FirstFailure<E>(names: seq<string>, threadId: nat, read: (string, nat) -> Result<string, E>): (r: Option<nat>)
    ensures r.Some? ==> r.value < |names| && read(names[r.value], threadId).Err?
    ensures r.Some? ==> forall j :: 0 <= j < r.value ==> read(names[j], threadId).Ok?
    ensures r.None? ==> forall j :: 0 <= j < |names| ==> read(names[j], threadId).Ok?
  {
    if names == [] then None
    else if read(names[0], threadId).Err? then Some(0)
    else match FirstFailure(names[1..], threadId, read)
      case None => None
      case Some(k) => Some(k + 1)
  }

  /** The first failure is found at `k` when every earlier name reads. */
  lemma FirstFailureAt<E>(names: seq<string>, threadId: nat, read: (string, nat) -> Result<string, E>, k: nat)
    requires k < |names| && read(names[k], threadId).Err?
    requires forall j :: 0 <= j < k ==> read(names[j], threadId).Ok?
    ensures FirstFailure(names, threadId, read) == Some(k)
  {
    if k > 0 {
      FirstFailureAt(names[1..], threadId, read, k - 1);
    }
  }

  /** Without any failing name there is no first failure. */
  lemma NoFailure<E>(names: seq<string>, threadId: nat, read: (string, nat) -> Result<string, E>)
    requires forall j :: 0 <= j < |names| ==> read(names[j], threadId).Ok?
    ensures FirstFailure(names, threadId, read) == None
  {
    if names != [] {
      NoFailure(names[1..], threadId, read);
    }
  }

  /**
   * What a loop over `names` with `?` produces: the texts of the names in
   * order up to the first one that fails, then that name's error; `Ok`
   * with every text when none fails.
   */
  ghost predicate RanUntilFailure<E>(names: seq<string>, threadId: nat, read: (string, nat) -> Result<string, E>,
                               texts: seq<string>, r: Result<(), E>)
  {
    match FirstFailure(names, threadId, read)
    case None =>
      r == Ok(()) && |texts| == |names| &&
      forall j :: 0 <= j < |names| ==> read(names[j], threadId) == Ok(texts[j])
    case Some(k) =>
      r == Err(read(names[k], threadId).error) && |texts| == k &&
      forall j :: 0 <= j < k ==> read(names[j], threadId) == Ok(texts[j])
  }

  /** `process_worklist`: each file in turn is processed, and the first error ends the loop. */
  method ProcessWorklist<E>(worklist: seq<string>, threadId: nat, read: (string, nat) -> Result<string, E>)
    returns (printed: seq<string>, r: Result<(), E>)
    ensures RanUntilFailure(worklist, threadId, read, printed, r)
  {
    printed := [];
    for i := 0 to |worklist|
      invariant |printed| == i
      invariant forall j :: 0 <= j < i ==> read(worklist[j], threadId) == Ok(printed[j])
    {
      var processed := ProcessFile(worklist[i], threadId, read);
      if processed.Err? {
        FirstFailureAt(worklist, threadId, read, i);
        return printed, Err(processed.error);
      }
      printed := printed + [processed.value];
    }
    NoFailure(worklist, threadId, read);
    r := Ok(());
  }

  /**
   * `process_files_handles` with its threads run one after the other:
   * thread `i` processes work list `i` and ends with `results[i]`, and its
   * `expect` panics exactly when that is an error; the function itself
   * returns `Ok` either way.
   */
  method ProcessFilesHandles<E>(filenames: seq<string>, read: (string, nat) -> Result<string, E>)
    returns (printedBy: seq<seq<string>>, results: seq<Result<(), E>>, r: Result<(), E>)
    requires |filenames| > 0
    ensures r == Ok(())
    ensures |printedBy| == |results| == |Worklists(filenames)|
    ensures forall i :: 0 <= i < |results| ==> RanUntilFailure(Worklists(filenames)[i], i, read, printedBy[i], results[i])
  {
    var worklists := Worklists(filenames);
    printedBy, results := [], [];
    for i := 0 to |worklists|
      invariant |printedBy| == |results| == i
      invariant forall j :: 0 <= j < i ==> RanUntilFailure(worklists[j], j, read, printedBy[j], results[j])
    {
      var printed, result := ProcessWorklist(worklists[i], i, read);
      printedBy, results := printedBy + [printed], results + [result];
    }
    r := Ok(());
  }

  /** With the program's `read_file` no thread panics, and thread `i` prints one line per name of its work list. */
  lemma HandlesWithReadFile(filenames: seq<string>, i: nat, printed: seq<string>, e: Result<(), IoError>)
    requires |filenames| > 0 && i < |Worklists(filenames)|
    requires RanUntilFailure(Worklists(filenames)[i], i, ReadFile, printed, e)
    ensures FirstFailure(Worklists(filenames)[i], i, ReadFile).None? && e == Ok(())
    ensures |printed| == |Worklists(filenames)[i]|
    ensures forall j :: 0 <= j < |printed| ==>
              printed[j] == "Thread:  " + NatToString(i) + ", File: " + Worklists(filenames)[i][j]
  {
    NoFailure(Worklists(filenames)[i], i, ReadFile);
  }

  // ---------------------------------------------------------------------
  // The channel pipeline
  // ---------------------------------------------------------------------

  /**
   * The reading thread of `start_file_read_thread`: the texts it sends
   * over the channel, and its `io::Result`. The receiver is never dropped
   * early in the sequential meaning, so `send` always succeeds.
   */
  method StartFileReadThread<E>(filenames: seq<string>, read: (string, nat) -> Result<string, E>)
    returns (sent: seq<string>, r: Result<(), E>)
    ensures RanUntilFailure(filenames, 0, read, sent, r)
  {
    sent := [];
    var i := 0;
    while i < |filenames|
      invariant 0 <= i <= |filenames| && |sent| == i
      invariant forall j :: 0 <= j < i ==> read(filenames[j], 0) == Ok(sent[j])
    {
      match read(filenames[i], 0)
      case Err(e) =>
        FirstFailureAt(filenames, 0, read, i);
        return sent, Err(e);
      case Ok(text) =>
        sent := sent + [text];
      i := i + 1;
    }
    NoFailure(filenames, 0, read);
    r := Ok(());
  }

  /** `format!("proc: {} -> {}", index, text)`. */
  function ProcLine(index: nat, text: string): string
  {
    "proc: " + NatToString(index) + " -> " + text
  }

  /** A numbered line has a line break only where its text has one. */
  lemma ProcLineNoNewline(index: nat, text: string)
    requires '\n' !in text
    ensures '\n' !in ProcLine(index, text)
  {
    NatToStringNoNewline(index);
  }

  /** The processing thread of `start_processing_thread`: each received text, numbered from 0. */
  method StartProcessingThread(texts: seq<string>) returns (sent: seq<string>)
    ensures |sent| == |texts|
    ensures forall k :: 0 <= k < |texts| ==> sent[k] == ProcLine(k, texts[k])
  {
    sent := [];
    for index := 0 to |texts|
      invariant |sent| == index
      invariant forall k :: 0 <= k < index ==> sent[k] == ProcLine(k, texts[k])
    {
      sent := sent + [ProcLine(index, texts[index])];
    }
  }

  /** `join("\n")`. */
  function Join(lines: seq<string>): string
  {
    if lines == [] then ""
    else if |lines| == 1 then lines[0]
    else lines[0] + "\n" + Join(lines[1..])
  }

  /** `str::split('\n')`: the pieces between line breaks, possibly empty. */
  function Split(s: string): (pieces: seq<string>)
    ensures |pieces| > 0
    decreases |s|
  {
    match Mandelbrot.Find(s, '\n')
    case None => [s]
    case Some(i) => [s[..i]] + Split(s[i + 1..])
  }

  /** Splitting the joined lines at the line breaks gives back the lines. */
  lemma {:induction false} SplitJoin(lines: seq<string>)
    requires |lines| > 0
    requires forall k :: 0 <= k < |lines| ==> '\n' !in lines[k]
    ensures Split(Join(lines)) == lines
  {
    if |lines| > 1 {
      var s := lines[0] + "\n" + Join(lines[1..]);
      SplitJoin(lines[1..]);
      assert s[..|lines[0]|] == lines[0];
      assert s[|lines[0]|] == '\n';
      assert Mandelbrot.Find(s, '\n') == Some(|lines[0]|) by {
        Mandelbrot.FindAfter(s, '\n', |lines[0]|);
      }
      assert s[|lines[0]| + 1..] == Join(lines[1..]);
    }
  }

  /** `merge_processed_texts`: the received lines joined by line breaks, which split back into those lines. */
  function MergeProcessedTexts(texts: seq<string>): (merged: Result<string, IoError>)
    ensures merged.Ok?
    ensures |texts| > 0 && (forall k :: 0 <= k < |texts| ==> '\n' !in texts[k]) ==> Split(merged.value) == texts
  {
    if |texts| > 0 && (forall k :: 0 <= k < |texts| ==> '\n' !in texts[k]) then
      SplitJoin(texts);
      Ok(Join(texts))
    else
      Ok(Join(texts))
  }

  /**
   * The "channels sequential" block of `main`: reading the reversed file
   * names, numbering and merging gives one line per file, line `k` naming
   * `file_{99 - k}.txt`.
   */
  method ChannelsDemo() returns (merged: string, r1: Result<(), IoError>)
    ensures r1 == Ok(())
    ensures |Split(merged)| == 100
    ensures forall k :: 0 <= k < 100 ==>
              Split(merged)[k] == ProcLine(k, "Thread:  0, File: " + FileName(99 - k))
  {
    var filenames := GetFilenames(true);
    var texts;
    texts, r1 := StartFileReadThread(filenames, ReadFile);
    NoFailure(filenames, 0, ReadFile);
    var numbered := StartProcessingThread(texts);
    forall k | 0 <= k < 100
      ensures '\n' !in numbered[k]
    {
      FileNameNoNewline(99 - k);
      ReadFileNoNewline(filenames[k], 0);
      ProcLineNoNewline(k, texts[k]);
    }
    var result := MergeProcessedTexts(numbered);
    merged := result.value;
    ThreadZeroPrefix();
  }

  lemma ThreadZeroPrefix()
    ensures "Thread:  " + NatToString(0) + ", File: " == "Thread:  0, File: "
  {
    assert NatToString(0) == "0";
  }

  /** Decimal digits hold no line break. */
  lemma NatToStringNoNewline(n: nat)
    ensures '\n' !in NatToString(n)
  {
    forall k | 0 <= k < |NatToString(n)|
      ensures NatToString(n)[k] != '\n'
    {
      assert IsDigit(NatToString(n)[k]);
    }
  }

  lemma FileNameNoNewline(i: nat)
    ensures '\n' !in FileName(i)
  {
    NatToStringNoNewline(i);
  }

  lemma ReadFileNoNewline(filename: string, threadId: nat)
    requires '\n' !in filename
    ensures '\n' !in ReadFile(filename, threadId).value
  {
    NatToStringNoNewline(threadId);
  }
}
