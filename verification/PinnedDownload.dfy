/**
  The resumable download of the pinned source archive, scripts/release/baci-source-staging.ts.

  A run may fail at any step, and the server may answer anything. Partial content and byte ranges are
  those of sections 14.4 and 15.3.7 of RFC 9110.
*/
module PinnedDownload {
  import opened Common

  type Byte = b: int | 0 <= b < 256

  /** A digest as an abstract identity: different contents have different digests. */
  datatype Digest = Digest(content: seq<Byte>)

  datatype Descriptor = Descriptor(expectedBytes: nat, expectedDigest: Digest)

  /** The two files of a download. */
  datatype Files = Files(archive: Option<seq<Byte>>, partial: Option<seq<Byte>>)

  datatype ContentRange = ContentRange(first: nat, last: nat, complete: nat)

  /** How a body reaches the partial file: not at all, in part, or to its end. */
  datatype Delivery = NeverOpened | Cut(received: seq<Byte>) | Complete(body: seq<Byte>)

  datatype Response =
    | Unreachable
    | Response(trusted: bool, status: int, contentRange: Option<ContentRange>, body: Option<Delivery>)

  /** The file operations of one run that fail; a run that is stopped fails at its next operation. */
  datatype Faults = Faults(
    archiveRead: bool, archiveRemove: bool, partialStat: bool, oversizedRemove: bool,
    resultStat: bool, resultRemove: bool, acceptRead: bool, acceptRemove: bool, acceptRename: bool)

  const NO_FAULTS := Faults(false, false, false, false, false, false, false, false, false)

  datatype Outcome = Done | Failed | Mismatch

  /** The size and the digest that the descriptor pins. */
  predicate Pinned(d: Descriptor, content: seq<Byte>) {
    |content| == d.expectedBytes && Digest(content) == d.expectedDigest
  }

  predicate CompatibleRange(range: Option<ContentRange>, offset: nat, expectedBytes: nat) {
    && range.Some? && range.value.first == offset && offset <= range.value.last < expectedBytes
    && range.value.complete == expectedBytes
  }

  // ---------- One run, as a function of the files, the faults and the server ----------

  /** Accepts a partial file of the right size, or removes it. */
  function Accepted(d: Descriptor, files: Files, io: Faults): (Files, Outcome)
    requires files.partial.Some?
  {
    if io.acceptRead then (files, Failed)
    else if !Pinned(d, files.partial.value) then
      if io.acceptRemove then (files, Failed) else (files.(partial := None), Mismatch)
    else if io.acceptRename then (files, Failed)
    else (Files(files.partial, None), Done)
  }

  /** What is on disk once a body has been received, in part or to its end. */
  function Received(partial: Option<seq<Byte>>, append: bool, body: seq<Byte>): seq<Byte> {
    if append && partial.Some? then partial.value + body else body
  }

  function Finished(d: Descriptor, files: Files, io: Faults): (Files, Outcome)
    requires files.partial.Some?
  {
    var size := |files.partial.value|;
    if io.resultStat then (files, Failed)
    else if size != d.expectedBytes then
      if size > d.expectedBytes && !io.resultRemove then (files.(partial := None), Failed) else (files, Failed)
    else Accepted(d, files, io)
  }

  /** The transfer: a request from `offset` on, and what is made of the answer. */
  function Transferred(d: Descriptor, files: Files, offset: nat, io: Faults, response: Response): (Files, Outcome) {
    if response.Unreachable? || !response.trusted then (files, Failed)
    else
      var append := offset > 0 && response.status == 206;
      if append && !CompatibleRange(response.contentRange, offset, d.expectedBytes) then (files, Failed)
      else if !append && response.status != 200 then (files, Failed)
      else if response.body.None? then (files, Failed)
      else match response.body.value
        case NeverOpened => (files, Failed)
        case Cut(received) => (files.(partial := Some(Received(files.partial, append, received))), Failed)
        case Complete(body) => Finished(d, files.(partial := Some(Received(files.partial, append, body))), io)
  }

  function Size(file: Option<seq<Byte>>): nat {
    if file.Some? then |file.value| else 0
  }

  /** The part of a run after the archive path is known to be free. */
  function Resumed(d: Descriptor, files: Files, io: Faults, server: nat -> Response): (Files, Outcome) {
    if io.partialStat then (files, Failed)
    else if Size(files.partial) > d.expectedBytes then
      if io.oversizedRemove then (files, Failed)
      else Transferred(d, files.(partial := None), 0, io, server(0))
    else if Size(files.partial) == d.expectedBytes && files.partial.Some? then Accepted(d, files, io)
    else Transferred(d, files, Size(files.partial), io, server(Size(files.partial)))
  }

  function Run(d: Descriptor, files: Files, io: Faults, server: nat -> Response): (Files, Outcome) {
    if files.archive.Some? then
      if io.archiveRead then (files, Failed)
      else if Pinned(d, files.archive.value) then (files, Done)
      else if io.archiveRemove then (files, Failed)
      else Resumed(d, files.(archive := None), io, server)
    else Resumed(d, files, io, server)
  }

  // ---------- The same run, step by step on the files ----------

  class Workspace {
    var files: Files

    constructor (files: Files)
      ensures this.files == files
    {
      this.files := files;
    }

    method AcceptCompletedDownload(d: Descriptor, io: Faults) returns (outcome: Outcome)
      requires files.partial.Some?
      modifies this
      ensures (files, outcome) == Accepted(d, old(files), io)
    {
      if io.acceptRead {
        return Failed;
      }
      if |files.partial.value| != d.expectedBytes || Digest(files.partial.value) != d.expectedDigest {
        if io.acceptRemove {
          return Failed;
        }
        files := files.(partial := None);
        return Mismatch;
      }
      if io.acceptRename {
        return Failed;
      }
      files := Files(files.partial, None);
      return Done;
    }

    /** `offset` and `append` change as the answer of the server is examined. */
    method DownloadPinnedArchive(d: Descriptor, io: Faults, server: nat -> Response) returns (outcome: Outcome)
      requires d.expectedBytes > 0
      modifies this
      ensures (files, outcome) == Run(d, old(files), io, server)
    {
      if files.archive.Some? {
        if io.archiveRead {
          return Failed;
        }
        if |files.archive.value| == d.expectedBytes && Digest(files.archive.value) == d.expectedDigest {
          return Done;
        }
        if io.archiveRemove {
          return Failed;
        }
        files := files.(archive := None);
      }
      if io.partialStat {
        return Failed;
      }
      var offset := if files.partial.Some? then |files.partial.value| else 0;
      if offset > d.expectedBytes {
        if io.oversizedRemove {
          return Failed;
        }
        files := files.(partial := None);
        offset := 0;
      }
      if offset == d.expectedBytes {
        outcome := AcceptCompletedDownload(d, io);
        return;
      }
      var response := server(offset);
      if response.Unreachable? || !response.trusted {
        return Failed;
      }
      var append := false;
      if offset > 0 && response.status == 206 {
        if !CompatibleRange(response.contentRange, offset, d.expectedBytes) {
          return Failed;
        }
        append := true;
      } else if response.status == 200 {
        offset := 0;
      } else {
        return Failed;
      }
      if response.body.None? {
        return Failed;
      }
      match response.body.value {
        case NeverOpened =>
          return Failed;
        case Cut(received) =>
          files := files.(partial := Some(if append then files.partial.value + received else received));
          return Failed;
        case Complete(body) =>
          files := files.(partial := Some(if append then files.partial.value + body else body));
      }
      if io.resultStat {
        return Failed;
      }
      var downloadedBytes := |files.partial.value|;
      if downloadedBytes != d.expectedBytes {
        if downloadedBytes > d.expectedBytes && !io.resultRemove {
          files := files.(partial := None);
        }
        return Failed;
      }
      outcome := AcceptCompletedDownload(d, io);
    }
  }

  // ---------- Any sequence of runs ----------

  /** One run: what fails in it, and how the server answers. */
  datatype RunInput = RunInput(io: Faults, server: nat -> Response)

  ghost function AfterRuns(d: Descriptor, files: Files, runs: seq<RunInput>): Files {
    if runs == [] then files
    else Run(d, AfterRuns(d, files, runs[..|runs| - 1]), runs[|runs| - 1].io, runs[|runs| - 1].server).0
  }

  /**
    Whatever the server answers and wherever runs are cut: the archive path holds what it held at the
    start, or nothing, or the pinned bytes; a pinned archive is never touched again; and a run that
    says it is done leaves the pinned bytes there.
  */
  lemma RunIsSafe(d: Descriptor, files: Files, io: Faults, server: nat -> Response)
    ensures var (after, outcome) := Run(d, files, io, server);
            && (after.archive == files.archive || after.archive == None || Pinned(d, after.archive.value))
            && (files.archive.Some? && Pinned(d, files.archive.value) ==> after == files)
            && (outcome == Done ==> after.archive.Some? && Pinned(d, after.archive.value))
  {
  }

  lemma {:induction false} RunsAreSafe(d: Descriptor, files: Files, runs: seq<RunInput>, n: nat)
    requires n <= |runs|
    ensures var after := AfterRuns(d, files, runs).archive;
            var before := AfterRuns(d, files, runs[..n]).archive;
            && (after == files.archive || after == None || Pinned(d, after.value))
            && (before.Some? && Pinned(d, before.value) ==> after == before)
    decreases |runs|
  {
    if runs != [] {
      var init, last := runs[..|runs| - 1], runs[|runs| - 1];
      RunIsSafe(d, AfterRuns(d, files, init), last.io, last.server);
      if n < |runs| {
        RunsAreSafe(d, files, init, n);
        assert init[..n] == runs[..n];
      } else {
        RunsAreSafe(d, files, init, n - 1);
        assert runs[..n] == runs;
      }
    }
  }

  // ---------- An honest server ----------

  /**
    What a trusted server may be relied on for, when it has the pinned content. A full answer sends it from
    its beginning; a partial answer names a range of it and sends that, whether or not it is the range that
    was asked for; either may be cut anywhere. Nothing is known of any other answer.
  */
  ghost predicate HonestAnswer(content: seq<Byte>, response: Response) {
    response.Response? && response.trusted && response.body.Some? && !response.body.value.NeverOpened? ==>
      && (response.status == 200 ==> Sent(response) <= content)
      && (response.status == 206 && response.contentRange.Some? ==>
            var range := response.contentRange.value;
            range.first <= range.last < |content| == range.complete ==>
              Sent(response) <= content[range.first..range.last + 1])
  }

  /** The bytes of an answer that arrive. */
  function Sent(response: Response): seq<Byte>
    requires response.Response? && response.body.Some? && !response.body.value.NeverOpened?
  {
    if response.body.value.Cut? then response.body.value.received else response.body.value.body
  }

  ghost predicate Honest(content: seq<Byte>, server: nat -> Response) {
    forall offset: nat :: HonestAnswer(content, server(offset))
  }

  ghost predicate PrefixOf(content: seq<Byte>, file: Option<seq<Byte>>) {
    file.Some? ==> file.value <= content
  }

  lemma AppendKeepsPrefix(content: seq<Byte>, start: seq<Byte>, sent: seq<Byte>, end: nat)
    requires start <= content && |start| <= end <= |content| && sent <= content[|start|..end]
    ensures start + sent <= content
  {
    assert content[..|start|] == start;
    assert sent == content[|start|..|start| + |sent|];
    assert start + sent == content[..|start| + |sent|];
  }

  lemma TransferKeepsPrefix(d: Descriptor, content: seq<Byte>, files: Files, io: Faults, response: Response)
    requires Pinned(d, content) && PrefixOf(content, files.partial) && Size(files.partial) < |content|
    requires HonestAnswer(content, response)
    ensures var (after, outcome) := Transferred(d, files, Size(files.partial), io, response);
            PrefixOf(content, after.partial) && outcome != Mismatch
  {
    var offset := Size(files.partial);
    if response.Response? && response.trusted && response.body.Some? && !response.body.value.NeverOpened?
       && offset > 0 && response.status == 206 && CompatibleRange(response.contentRange, offset, d.expectedBytes) {
      AppendKeepsPrefix(content, files.partial.value, Sent(response), response.contentRange.value.last + 1);
    }
  }

  /** With an honest server a partial file that is a prefix of the pinned content stays one. */
  lemma RunKeepsPrefix(d: Descriptor, content: seq<Byte>, files: Files, io: Faults, server: nat -> Response)
    requires Pinned(d, content) && Honest(content, server) && PrefixOf(content, files.partial)
    ensures var (after, outcome) := Run(d, files, io, server);
            PrefixOf(content, after.partial) && outcome != Mismatch
  {
    var offset := Size(files.partial);
    assert HonestAnswer(content, server(offset));
    if offset < |content| {
      TransferKeepsPrefix(d, content, files, io, server(offset));
      TransferKeepsPrefix(d, content, files.(archive := None), io, server(offset));
    }
  }

  /** How one run of a sequence ends. */
  ghost function OutcomeOfRun(d: Descriptor, files: Files, runs: seq<RunInput>, n: nat): Outcome
    requires n < |runs|
  {
    Run(d, AfterRuns(d, files, runs[..n]), runs[n].io, runs[n].server).1
  }

  lemma {:induction false} RunsKeepPrefix(d: Descriptor, content: seq<Byte>, files: Files, runs: seq<RunInput>)
    requires Pinned(d, content) && PrefixOf(content, files.partial)
    requires forall r :: r in runs ==> Honest(content, r.server)
    ensures PrefixOf(content, AfterRuns(d, files, runs).partial)
    ensures forall n :: 0 <= n < |runs| ==> OutcomeOfRun(d, files, runs, n) != Mismatch
  {
    if runs != [] {
      var init, last := runs[..|runs| - 1], runs[|runs| - 1];
      RunsKeepPrefix(d, content, files, init);
      RunKeepsPrefix(d, content, AfterRuns(d, files, init), last.io, last.server);
      forall n | 0 <= n < |runs|
        ensures OutcomeOfRun(d, files, runs, n) != Mismatch
      {
        if n < |init| {
          assert init[..n] == runs[..n];
          assert OutcomeOfRun(d, files, runs, n) == OutcomeOfRun(d, files, init, n);
        }
      }
    }
  }

  // ---------- Progress ----------

  /** The server resumes: it answers a request for the range from `offset` on with a range that begins there. */
  ghost predicate Resumes(content: seq<Byte>, offset: nat, response: Response) {
    && response.Response? && response.trusted && response.body.Some? && !response.body.value.NeverOpened?
    && offset > 0 && response.status == 206 && response.contentRange.Some?
    && response.contentRange.value.first == offset <= response.contentRange.value.last < |content|
    && response.contentRange.value.complete == |content|
  }

  /** The server starts over: it sends the content from its beginning. */
  ghost predicate Restarts(response: Response) {
    && response.Response? && response.trusted && response.body.Some? && !response.body.value.NeverOpened?
    && response.status == 200
  }

  /** The archive path is free, or holds something else than the pinned bytes, and these can be read and removed. */
  ghost predicate NotYetThere(d: Descriptor, files: Files, io: Faults) {
    files.archive.Some? ==> !Pinned(d, files.archive.value) && !io.archiveRead && !io.archiveRemove
  }

  /**
    An interrupted transfer loses nothing: resumed, it leaves the content up to where it was cut; restarted,
    it leaves exactly what it received.
  */
  lemma CutKeepsWhatArrived(d: Descriptor, content: seq<Byte>, files: Files, io: Faults, server: nat -> Response)
    requires Pinned(d, content) && Honest(content, server) && PrefixOf(content, files.partial)
    requires NotYetThere(d, files, io) && !io.partialStat && Size(files.partial) < |content|
    requires var answer := server(Size(files.partial));
             answer.Response? && answer.body.Some? && answer.body.value.Cut?
    ensures var offset := Size(files.partial);
            var answer := server(offset);
            && (Resumes(content, offset, answer) ==>
                  && offset + |Sent(answer)| <= |content|
                  && Run(d, files, io, server) == (Files(None, Some(content[..offset + |Sent(answer)|])), Failed))
            && (Restarts(answer) ==>
                  && |Sent(answer)| <= |content|
                  && Run(d, files, io, server) == (Files(None, Some(content[..|Sent(answer)|])), Failed))
  {
    var offset := Size(files.partial);
    var answer := server(offset);
    assert HonestAnswer(content, answer);
    if Resumes(content, offset, answer) {
      AppendKeepsPrefix(content, files.partial.value, Sent(answer), answer.contentRange.value.last + 1);
      assert files.partial.value + Sent(answer) == content[..offset + |Sent(answer)|];
    }
    if Restarts(answer) {
      assert Sent(answer) == content[..|Sent(answer)|];
    }
  }

  /** Whatever fails: with an honest server a prefix never shrinks unless the server starts over, or the archive is accepted. */
  lemma NothingIsLost(d: Descriptor, content: seq<Byte>, files: Files, io: Faults, server: nat -> Response)
    requires Pinned(d, content) && Honest(content, server) && PrefixOf(content, files.partial)
    ensures var (after, outcome) := Run(d, files, io, server);
            outcome == Done || Size(files.partial) <= Size(after.partial) || Restarts(server(Size(files.partial)))
  {
    RunKeepsPrefix(d, content, files, io, server);
    assert HonestAnswer(content, server(Size(files.partial)));
    assert HonestAnswer(content, server(0));
    if Size(files.partial) < |content| && Resumes(content, Size(files.partial), server(Size(files.partial))) {
      var answer := server(Size(files.partial));
      AppendKeepsPrefix(content, files.partial.value, Sent(answer), answer.contentRange.value.last + 1);
    }
  }

  /** Every answer resumes, or at the beginning starts, and delivers at least one byte before it ends. */
  ghost predicate Steady(content: seq<Byte>, server: nat -> Response) {
    && Honest(content, server)
    && forall offset: nat :: offset < |content| ==> Delivers(content, offset, server(offset))
  }

  ghost predicate Delivers(content: seq<Byte>, offset: nat, response: Response) {
    && (if offset == 0 then Restarts(response) else Resumes(content, offset, response))
    && |Sent(response)| > 0
  }

  /** How much of the content is there: all of it, or the prefix in the partial file. */
  ghost function Progress(d: Descriptor, files: Files): nat {
    if files.archive.Some? && Pinned(d, files.archive.value) then d.expectedBytes + 1 else Size(files.partial)
  }

  /** A run on a steady server makes progress: the partial file grows, and once it is complete it is accepted. */
  lemma SteadyRunProgresses(d: Descriptor, content: seq<Byte>, files: Files, server: nat -> Response)
    requires Pinned(d, content) && |content| > 0 && Steady(content, server) && PrefixOf(content, files.partial)
    ensures var after := Run(d, files, NO_FAULTS, server).0;
            && PrefixOf(content, after.partial)
            && (Progress(d, after) > Progress(d, files) || Progress(d, after) == |content| + 1)
            && Progress(d, after) <= |content| + 1
  {
    var offset := Size(files.partial);
    RunKeepsPrefix(d, content, files, NO_FAULTS, server);
    if offset < |content| {
      var answer := server(offset);
      assert HonestAnswer(content, answer) && Delivers(content, offset, answer);
      if offset > 0 {
        AppendKeepsPrefix(content, files.partial.value, Sent(answer), answer.contentRange.value.last + 1);
      }
    } else {
      assert files.partial.value == content;
    }
  }

  ghost function SteadyRuns(servers: seq<nat -> Response>): seq<RunInput> {
    seq(|servers|, k requires 0 <= k < |servers| => RunInput(NO_FAULTS, servers[k]))
  }

  /** So each run advances by at least one byte, and one run more than there are bytes left ends with the archive. */
  lemma {:induction false} SteadyRunsFinish(d: Descriptor, content: seq<Byte>, files: Files, servers: seq<nat -> Response>)
    requires Pinned(d, content) && |content| > 0 && PrefixOf(content, files.partial)
    requires forall s :: s in servers ==> Steady(content, s)
    ensures var after := AfterRuns(d, files, SteadyRuns(servers));
            && PrefixOf(content, after.partial)
            && (Progress(d, after) >= Progress(d, files) + |servers| || Progress(d, after) == |content| + 1)
            && (|servers| > |content| - Size(files.partial) ==> after.archive == Some(content))
  {
    if servers != [] {
      var init, last := servers[..|servers| - 1], servers[|servers| - 1];
      SteadyRunsFinish(d, content, files, init);
      assert SteadyRuns(servers)[..|servers| - 1] == SteadyRuns(init);
      SteadyRunProgresses(d, content, AfterRuns(d, files, SteadyRuns(init)), last);
    }
  }

  // ---------- An uncut run ----------

  /** An answer that is not cut: all of the content, or all of it from the requested offset on. */
  ghost predicate UncutAnswer(content: seq<Byte>, offset: nat, response: Response) {
    && response.Response? && response.trusted
    && (|| (response.status == 200 && response.body == Some(Complete(content)))
        || (&& response.status == 206 && 0 < offset < |content|
            && response.contentRange == Some(ContentRange(offset, |content| - 1, |content|))
            && response.body == Some(Complete(content[offset..]))))
  }

  ghost predicate Uncut(content: seq<Byte>, server: nat -> Response) {
    forall offset: nat :: offset < |content| ==> UncutAnswer(content, offset, server(offset))
  }

  /**
    The files from which an uncut run cannot finish: no pinned archive, and a partial file of at most
    the pinned size that is no prefix of the content and is kept, because it looks complete or because
    the server resumes it.
  */
  ghost predicate Spoiled(d: Descriptor, content: seq<Byte>, files: Files, server: nat -> Response) {
    && (files.archive.Some? ==> !Pinned(d, files.archive.value))
    && files.partial.Some? && |files.partial.value| <= |content| && !(files.partial.value <= content)
    && (|files.partial.value| == |content|
        || !(server(|files.partial.value|).Response? && server(|files.partial.value|).status == 200))
  }

  /** An uncut run finishes exactly when the files are not spoiled; otherwise it removes the spoiled file. */
  lemma UncutRunFinishesIff(d: Descriptor, content: seq<Byte>, files: Files, server: nat -> Response)
    requires Pinned(d, content) && |content| > 0 && Uncut(content, server)
    ensures var (after, outcome) := Run(d, files, NO_FAULTS, server);
            && (outcome == Done <==> !Spoiled(d, content, files, server))
            && (outcome == Done ==> after.archive == Some(content))
            && (outcome != Done ==> after == Files(None, None))
  {
    var offset := Size(files.partial);
    if offset < |content| {
      assert UncutAnswer(content, offset, server(offset));
      if files.partial.Some? {
        ResumedContent(content, files.partial.value);
      }
    }
    assert UncutAnswer(content, 0, server(0));
  }

  /** What a resumed transfer puts together is the content exactly when it continued a prefix of it. */
  lemma ResumedContent(content: seq<Byte>, start: seq<Byte>)
    requires |start| <= |content|
    ensures |start + content[|start|..]| == |content|
    ensures start + content[|start|..] == content <==> start <= content
  {
    if start <= content {
      assert content[..|start|] == start;
      assert content == content[..|start|] + content[|start|..];
    }
    if start + content[|start|..] == content {
      assert start == (start + content[|start|..])[..|start|] == content[..|start|];
    }
  }

  /** From any files at all, two uncut runs suffice. */
  lemma TwoUncutRunsSuffice(d: Descriptor, content: seq<Byte>, files: Files,
                            first: nat -> Response, second: nat -> Response)
    requires Pinned(d, content) && |content| > 0
    requires Uncut(content, first) && Uncut(content, second)
    ensures var after := Run(d, files, NO_FAULTS, first).0;
            var (final, outcome) := Run(d, after, NO_FAULTS, second);
            outcome == Done && final.archive == Some(content)
  {
    assert forall offset: nat :: offset < |content| ==> UncutAnswer(content, offset, first(offset));
    assert forall offset: nat :: offset < |content| ==> UncutAnswer(content, offset, second(offset));
    UncutRunFinishesIff(d, content, files, first);
    var (after, outcome) := Run(d, files, NO_FAULTS, first);
    UncutRunFinishesIff(d, content, after, second);
    if outcome == Done {
      assert after.archive == Some(content);
    }
  }

  // ---------- A transfer that is not interrupted ----------

  /** What is on disk when the answer has arrived: behind what was there, or instead of it when the server starts over. */
  ghost function Assembled(content: seq<Byte>, files: Files, answer: Response): seq<Byte>
    requires Resumes(content, Size(files.partial), answer) || Restarts(answer)
  {
    if Restarts(answer) then Sent(answer) else files.partial.value + Sent(answer)
  }

  /**
    An answer that arrives to its end is judged by its size, and at the right size by its digest: too little is
    kept for the next run, too much is removed, the pinned bytes become the archive, and others are removed.
  */
  lemma ArrivedIsJudged(d: Descriptor, content: seq<Byte>, files: Files, server: nat -> Response)
    requires |content| == d.expectedBytes && Size(files.partial) < d.expectedBytes
    requires files.archive.Some? ==> !Pinned(d, files.archive.value)
    requires var answer := server(Size(files.partial));
             (Resumes(content, Size(files.partial), answer) || Restarts(answer)) && answer.body.value.Complete?
    ensures var assembled := Assembled(content, files, server(Size(files.partial)));
            Run(d, files, NO_FAULTS, server)
            == if |assembled| < d.expectedBytes then (Files(None, Some(assembled)), Failed)
               else if |assembled| > d.expectedBytes then (Files(None, None), Failed)
               else if Pinned(d, assembled) then (Files(Some(assembled), None), Done)
               else (Files(None, None), Mismatch)
  {
  }

  /** A partial file that is too large is removed before anything is requested, and the whole is requested. */
  lemma OversizedIsRemoved(d: Descriptor, files: Files, io: Faults, server: nat -> Response)
    requires NotYetThere(d, files, io) && !io.partialStat && !io.oversizedRemove && Size(files.partial) > d.expectedBytes
    ensures Run(d, files, io, server) == Run(d, Files(None, None), io, server)
  {
  }
}
