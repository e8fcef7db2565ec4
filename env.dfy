/** The file helpers every Env offers on top of its primitive operations:
    writing a whole string to a new file (optionally synced), reading a whole
    file into a string, logging through an optional logger, and the default
    refusal to open files for appending.

    The Env and the files it opens are not executed. The statuses they
    return are a script handed in as a parameter, and each operation a
    helper invokes on them is recorded, in order, in the returned trace. */
module Env {
  import opened Slices
  import opened Statuses
  import opened PosixLogging

  /** The default Env::NewAppendableFile: appending is not supported, and the
      status names the file. No file is produced. */
  function NewAppendableFile(fname: string): (s: Status)
    ensures !s.IsOk() && s.NotSupported?
    ensures s.detail == Text(fname)
  {
    NotSupported("NewAppendableFile", Text(fname))
  }

  /** An operation a helper invokes on the Env or on a file it opened. */
  datatype EnvCall =
    | NewWritableFile(fname: string)
    | NewSequentialFile(fname: string)
    | Append(data: seq<byte>)
    | Sync
    | CloseFile
    | ReadFile(n: nat)
    | DeleteObject  // `delete file`: the file object's destructor
    | RemoveFile(fname: string)

  // ---------------------------------------------------------------------
  // Writing a string to a file

  /** The statuses the Env and the new file answer with, for opening the
      file, Append, Sync and Close. */
  datatype WriteScript = WriteScript(open: Status, append: Status, sync: Status, close: Status)

  /** The file operations of a write, in the order they are attempted. */
  function FileSteps(data: seq<byte>, shouldSync: bool): seq<EnvCall>
  {
    [Append(data)] + (if shouldSync then [Sync] else []) + [CloseFile]
  }

  /** The statuses those operations would answer with, in the same order. */
  function StepReplies(script: WriteScript, shouldSync: bool): (rs: seq<Status>)
    ensures |rs| == |FileSteps([], shouldSync)|
  {
    [script.append] + (if shouldSync then [script.sync] else []) + [script.close]
  }

  /** The position of the first failing status, or |rs| when none fails. */
  function FirstFailure(rs: seq<Status>): (k: nat)
    ensures k <= |rs|
    ensures forall i :: 0 <= i < k ==> rs[i].IsOk()
    ensures k < |rs| ==> !rs[k].IsOk()
  {
    if |rs| == 0 || !rs[0].IsOk() then 0 else 1 + FirstFailure(rs[1..])
  }

  /** The prefixes of the file steps, written out. */
  lemma FileStepsPrefixes(data: seq<byte>, shouldSync: bool)
    ensures var steps := FileSteps(data, shouldSync);
      && steps[..1] == [Append(data)]
      && (shouldSync ==> steps[..2] == [Append(data), Sync] && steps[..3] == steps)
      && (!shouldSync ==> steps[..2] == steps == [Append(data), CloseFile])
      && (shouldSync ==> steps == [Append(data), Sync, CloseFile])
  {
  }

  /** Where the first failure lies, case by case. */
  lemma FirstFailureCases(script: WriteScript, shouldSync: bool)
    ensures var rs := StepReplies(script, shouldSync);
      var k := FirstFailure(rs);
      && (!script.append.IsOk() ==> k == 0)
      && (script.append.IsOk() && shouldSync && !script.sync.IsOk() ==> k == 1)
      && (script.append.IsOk() && shouldSync && script.sync.IsOk() ==> k == 2 + FirstFailure([script.close]))
      && (script.append.IsOk() && !shouldSync ==> k == 1 + FirstFailure([script.close]))
      && (script.close.IsOk() <==> FirstFailure([script.close]) == 1)
  {
    var rs := StepReplies(script, shouldSync);
    if shouldSync {
      assert rs[1..] == [script.sync, script.close];
      assert rs[1..][1..] == [script.close];
    } else {
      assert rs[1..] == [script.close];
    }
    assert [script.close][1..] == [];
  }

  /** What a write of data to fname produces: a failed open is returned as
      it is; otherwise the file steps run up to and including the first one
      that fails, the file object is deleted, and a failed write removes the
      file. The status is the first failing one, or OK. */
  ghost function WriteOutcome(data: seq<byte>, fname: string, shouldSync: bool,
                              script: WriteScript): (Status, seq<EnvCall>)
  {
    if !script.open.IsOk() then (script.open, [NewWritableFile(fname)])
    else
      var rs := StepReplies(script, shouldSync);
      var k := FirstFailure(rs);
      var s := if k < |rs| then rs[k] else OK;
      var attempted := FileSteps(data, shouldSync)[..if k < |rs| then k + 1 else k];
      (s, [NewWritableFile(fname)] + attempted + [DeleteObject]
          + (if s.IsOk() then [] else [RemoveFile(fname)]))
  }

  /** DoWriteStringToFile: Append, Sync when asked and Append succeeded,
      Close when everything before succeeded, delete the file object, and
      remove the file unless the result is OK. */
  method DoWriteStringToFile(data: Slice, fname: string, shouldSync: bool, script: WriteScript)
    returns (s: Status, calls: seq<EnvCall>)
    requires data.Valid()
    ensures (s, calls) == WriteOutcome(data.View(), fname, shouldSync, script)
  {
    calls := [NewWritableFile(fname)];
    s := script.open;
    if !s.IsOk() {
      return;
    }
    ghost var rs := StepReplies(script, shouldSync);
    ghost var steps := FileSteps(data.ToString(), shouldSync);
    FileStepsPrefixes(data.ToString(), shouldSync);
    ghost var ran := 1;
    calls := calls + [Append(data.ToString())];
    s := script.append;
    if s.IsOk() && shouldSync {
      calls := calls + [Sync];
      s := script.sync;
      ran := 2;
    }
    if s.IsOk() {
      calls := calls + [CloseFile];
      s := script.close;
      ran := ran + 1;
    }
    assert calls == [NewWritableFile(fname)] + steps[..ran];
    calls := calls + [DeleteObject];
    if !s.IsOk() {
      calls := calls + [RemoveFile(fname)];
    }
    // Which steps ran is decided by the first failure among the replies.
    FirstFailureCases(script, shouldSync);
    ghost var k := FirstFailure(rs);
    assert ran == (if k < |rs| then k + 1 else k);
    assert s == (if k < |rs| then rs[k] else OK);
    assert calls == [NewWritableFile(fname)] + steps[..ran] + [DeleteObject]
                    + (if s.IsOk() then [] else [RemoveFile(fname)]);
    assert steps == FileSteps(data.View(), shouldSync);
  }

  /** An open failure is returned at once: nothing else is attempted and
      nothing is removed. */
  lemma OpenFailureReturnedAtOnce(data: seq<byte>, fname: string, shouldSync: bool,
                                  script: WriteScript)
    requires !script.open.IsOk()
    ensures var (s, calls) := WriteOutcome(data, fname, shouldSync, script);
      s == script.open && calls == [NewWritableFile(fname)]
      && RemoveFile(fname) !in calls
  {
  }

  /** Sync is requested exactly when the file was opened, a sync was asked
      for, and Append succeeded; Close is invoked exactly when every step
      before it succeeded. */
  lemma {:induction false} SyncAndCloseOnlyAfterSuccess(data: seq<byte>, fname: string,
                                                       shouldSync: bool, script: WriteScript)
    ensures var (s, calls) := WriteOutcome(data, fname, shouldSync, script);
      && (Sync in calls <==> script.open.IsOk() && shouldSync && script.append.IsOk())
      && (CloseFile in calls <==> script.open.IsOk() && script.append.IsOk()
                                  && (shouldSync ==> script.sync.IsOk()))
  {
    var (s, calls) := WriteOutcome(data, fname, shouldSync, script);
    if script.open.IsOk() {
      var rs := StepReplies(script, shouldSync);
      var k := FirstFailure(rs);
      var steps := FileSteps(data, shouldSync);
      var attempted := steps[..if k < |rs| then k + 1 else k];
      assert calls == [NewWritableFile(fname)] + attempted + [DeleteObject]
                      + (if s.IsOk() then [] else [RemoveFile(fname)]);
      FirstFailureCases(script, shouldSync);
      FileStepsPrefixes(data, shouldSync);
      assert Sync in calls <==> Sync in attempted;
      assert CloseFile in calls <==> CloseFile in attempted;
    }
  }

  /** The file is removed exactly when the open succeeded and the final
      status is not OK; the status is OK exactly when every step succeeded. */
  lemma RemovedIffFailed(data: seq<byte>, fname: string, shouldSync: bool, script: WriteScript)
    requires script.open.IsOk()
    ensures var (s, calls) := WriteOutcome(data, fname, shouldSync, script);
      && (RemoveFile(fname) in calls <==> !s.IsOk())
      && (s.IsOk() <==> script.append.IsOk() && (shouldSync ==> script.sync.IsOk())
                        && script.close.IsOk())
  {
    var (s, calls) := WriteOutcome(data, fname, shouldSync, script);
    var rs := StepReplies(script, shouldSync);
    var k := FirstFailure(rs);
    var attempted := FileSteps(data, shouldSync)[..if k < |rs| then k + 1 else k];
    assert RemoveFile(fname) !in attempted;
    FirstFailureCases(script, shouldSync);
  }

  /** WriteStringToFile: the write without a sync; Sync is never requested. */
  method WriteStringToFile(data: Slice, fname: string, script: WriteScript)
    returns (s: Status, calls: seq<EnvCall>)
    requires data.Valid()
    ensures (s, calls) == WriteOutcome(data.View(), fname, false, script)
    ensures Sync !in calls
  {
    s, calls := DoWriteStringToFile(data, fname, false, script);
    SyncAndCloseOnlyAfterSuccess(data.View(), fname, false, script);
  }

  /** WriteStringToFileSync: the write with a sync, which is requested
      whenever the open and the Append succeed. */
  method WriteStringToFileSync(data: Slice, fname: string, script: WriteScript)
    returns (s: Status, calls: seq<EnvCall>)
    requires data.Valid()
    ensures (s, calls) == WriteOutcome(data.View(), fname, true, script)
    ensures Sync in calls <==> script.open.IsOk() && script.append.IsOk()
  {
    s, calls := DoWriteStringToFile(data, fname, true, script);
    SyncAndCloseOnlyAfterSuccess(data.View(), fname, true, script);
  }

  // ---------------------------------------------------------------------
  // Reading a file into a string

  /** The size of the scratch buffer, and of every read ReadFileToString
      requests. */
  const ReadBufferSize := 8198

  /** One answer of the sequential file's Read: a status and, when it is OK,
      the fragment read. */
  datatype ReadStep = ReadStep(status: Status, fragment: seq<byte>)

  /** The answer to read number k: once the script is exhausted, the file is
      at its end and replies return an empty fragment. */
  function ReadStepAt(replies: seq<ReadStep>, k: nat): ReadStep
  {
    if k < |replies| then replies[k] else ReadStep(OK, [])
  }

  /** The read that ends the loop: the first one that fails or returns an
      empty fragment (|replies| when no scripted read does). */
  function StopIndex(replies: seq<ReadStep>): (k: nat)
    ensures k <= |replies|
    ensures forall i :: 0 <= i < k ==> replies[i].status.IsOk() && replies[i].fragment != []
    ensures k < |replies| ==> !replies[k].status.IsOk() || replies[k].fragment == []
  {
    if |replies| == 0 || !replies[0].status.IsOk() || replies[0].fragment == [] then 0
    else 1 + StopIndex(replies[1..])
  }

  /** The fragments of the first k replies, concatenated in order. */
  function Fragments(replies: seq<ReadStep>, k: nat): (d: seq<byte>)
    requires k <= |replies|
  {
    if k == 0 then [] else Fragments(replies, k - 1) + replies[k - 1].fragment
  }

  /** ReadFileToString: clears data, opens the file (returning a failure at
      once), then issues 8198-byte reads, appending each fragment, until a
      read fails or returns an empty fragment; the file object is deleted.
      The result is the status of the last read, and data holds every
      fragment read before it. */
  method ReadFileToString(fname: string, open: Status, replies: seq<ReadStep>)
    returns (s: Status, data: seq<byte>, calls: seq<EnvCall>)
    ensures |calls| >= 1 && calls[0] == NewSequentialFile(fname)
    ensures !open.IsOk() ==> s == open && data == [] && calls == [NewSequentialFile(fname)]
    ensures open.IsOk() ==>
      var k := StopIndex(replies);
      && data == Fragments(replies, k)
      && s == ReadStepAt(replies, k).status
      && |calls| == k + 3 && calls[|calls| - 1] == DeleteObject
      && forall i :: 1 <= i < |calls| - 1 ==> calls[i] == ReadFile(ReadBufferSize)
  {
    data := [];
    calls := [NewSequentialFile(fname)];
    s := open;
    if !s.IsOk() {
      return;
    }
    var i := 0;
    while true
      invariant i <= StopIndex(replies)
      invariant data == Fragments(replies, i)
      invariant |calls| == i + 1 && calls[0] == NewSequentialFile(fname)
      invariant forall j :: 1 <= j < |calls| ==> calls[j] == ReadFile(ReadBufferSize)
      decreases |replies| - i
    {
      var step := ReadStepAt(replies, i);
      calls := calls + [ReadFile(ReadBufferSize)];
      s := step.status;
      if !s.IsOk() {
        break;
      }
      data := data + step.fragment;
      if step.fragment == [] {
        assert data == Fragments(replies, i);
        break;
      }
      i := i + 1;
    }
    calls := calls + [DeleteObject];
  }

  /** Later replies do not change the fragments of the first k. */
  lemma {:induction false} FragmentsAppend(replies: seq<ReadStep>, k: nat, extra: ReadStep)
    requires k <= |replies|
    ensures Fragments(replies + [extra], k) == Fragments(replies, k)
  {
    if k > 0 {
      FragmentsAppend(replies, k - 1, extra);
      assert (replies + [extra])[k - 1] == replies[k - 1];
    }
  }

  /** A file read as non-empty chunks and then its end: the loop reads every
      chunk, data is their concatenation, and the status is OK. */
  lemma {:induction false} ReadsWholeFile(chunks: seq<seq<byte>>)
    requires forall i :: 0 <= i < |chunks| ==> chunks[i] != []
    ensures var replies := seq(|chunks|, i requires 0 <= i < |chunks| => ReadStep(OK, chunks[i]));
      && StopIndex(replies) == |chunks|
      && Fragments(replies, |chunks|) == Flatten(chunks)
      && ReadStepAt(replies, |chunks|).status == OK
  {
    var replies := seq(|chunks|, i requires 0 <= i < |chunks| => ReadStep(OK, chunks[i]));
    StopIndexIsFirst(replies, |chunks|);
    if |chunks| > 0 {
      var init := chunks[..|chunks| - 1];
      ReadsWholeFile(init);
      var initReplies := seq(|init|, i requires 0 <= i < |init| => ReadStep(OK, init[i]));
      assert replies == initReplies + [ReadStep(OK, chunks[|chunks| - 1])];
      FragmentsAppend(initReplies, |init|, ReadStep(OK, chunks[|chunks| - 1]));
      assert chunks == init + [chunks[|chunks| - 1]];
      FlattenAppend(init, chunks[|chunks| - 1]);
    }
  }

  /** A read error ends the loop with that error, keeping only the fragments
      read before it. */
  lemma ReadErrorKeepsEarlierFragments(replies: seq<ReadStep>, k: nat)
    requires k < |replies| && !replies[k].status.IsOk()
    requires forall i :: 0 <= i < k ==> replies[i].status.IsOk() && replies[i].fragment != []
    ensures StopIndex(replies) == k
    ensures ReadStepAt(replies, StopIndex(replies)).status == replies[k].status
  {
    StopIndexIsFirst(replies, k);
  }

  /** The loop stops at the first read that fails or returns nothing. */
  lemma {:induction false} StopIndexIsFirst(replies: seq<ReadStep>, k: nat)
    requires k <= |replies|
    requires k < |replies| ==> !replies[k].status.IsOk() || replies[k].fragment == []
    requires forall i :: 0 <= i < k ==> replies[i].status.IsOk() && replies[i].fragment != []
    ensures StopIndex(replies) == k
  {
    if k > 0 {
      StopIndexIsFirst(replies[1..], k - 1);
    }
  }

  function Flatten(chunks: seq<seq<byte>>): seq<byte>
  {
    if |chunks| == 0 then [] else chunks[0] + Flatten(chunks[1..])
  }

  lemma {:induction false} FlattenAppend(chunks: seq<seq<byte>>, last: seq<byte>)
    ensures Flatten(chunks + [last]) == Flatten(chunks) + last
  {
    if |chunks| > 0 {
      assert (chunks + [last])[1..] == chunks[1..] + [last];
      FlattenAppend(chunks[1..], last);
    }
  }

  // ---------------------------------------------------------------------
  // Logging

  /** Log: formats the message onto the logger when there is one. For a
      null logger the frame is empty, so nothing at all changes. The message
      arrives already formatted. */
  method Log(infoLog: PosixLogger?, threadId: string, stamp: string, body: string)
    requires |stamp| <= TimestampWidth
    modifies infoLog
    ensures infoLog != null ==> infoLog.written == old(infoLog.written) + Line(threadId, stamp, body)
  {
    if infoLog != null {
      infoLog.Logv(threadId, stamp, body);
    }
  }
}
