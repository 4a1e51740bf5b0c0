/** What every run of the resumable upload keeps, whatever the server answers and whenever a cancel is seen. */
module UploadRuns {
  import opened Common
  import opened Chunks
  import opened UploadLog
  import opened UploadSpec
  import opened UploadFacts

  // ---------------------------------------------------------------------------
  // The session the server opened
  // ---------------------------------------------------------------------------

  /** A fresh run fills the grid of the session its create was answered with, over the whole source. */
  lemma FreshSession(t: Trace, setting: Setting, r: Result<Uploaded, Error>) returns (received: seq<U32>)
    requires Run(t, setting, r) && t.start.Ready? && setting.resume.None?
    ensures |t.opening| == 3 && t.opening[1].Sent? && Success(t.opening[1].reply)
    ensures t.opening[1].request == Create(|setting.source|, setting.digest, setting.chunkRequest)
    ensures var grid := t.start.grid;
      && t.opening[1].reply.body == Created(grid.sid, grid.chunkBytes, grid.chunkCount, received)
      && grid.totalBytes == |setting.source| && grid.missing == MissingFrom(grid.chunkCount, received)
  {
    hide TransferRun;
    hide AbandonRun;
    hide MissingFrom;
    received := ParseCreate(t.opening[1].reply).value.received;
  }

  /** A resumed run fills the grid of the session its status read was answered with. */
  lemma ResumedSession(t: Trace, setting: Setting, r: Result<Uploaded, Error>) returns (session: Session)
    requires Run(t, setting, r) && t.start.Ready? && setting.resume.Some?
    ensures |t.opening| == 2 && t.opening[1].Sent? && Success(t.opening[1].reply)
    ensures t.opening[1].request == Status(setting.resume.value) && t.opening[1].reply.body == SessionStatus(session)
    ensures t.start.grid
         == Grid(session.sid, session.chunkBytes, session.chunkCount, session.totalBytes, session.digest, session.missing)
  {
    hide TransferRun;
    hide AbandonRun;
    hide Bridged;
    session := ParseStatus(t.opening[1].reply).value;
  }

  /** What an opening may hold: no chunk, no complete, no progress; an abandon only as the last word of a cancel. */
  ghost predicate QuietOpening(events: seq<Event>, setting: Setting, start: Opened) {
    && (forall k :: 0 <= k < |events| ==> !events[k].Progress?)
    && (forall k :: 0 <= k < |events| && events[k].Sent? ==> !events[k].request.Put? && !events[k].request.Complete?)
    && Count(events, Statuses) <= (if setting.resume.Some? then 1 else 0)
    && (forall k :: 0 <= k < |events| && events[k].Sent? && events[k].request.Abandon? ==>
          k == |events| - 1 && start.Ended? && AbandonedFor(events[k], setting.resume, start.outcome))
    && (start == Ended(Err(Cancelled)) ==>
          events == [Checked(true)] || (events != [] && AbandonedFor(events[|events| - 1], setting.resume, Err(Cancelled))))
  }

  /** The abandon of a session, and the answer a cancel gets from it. */
  predicate AbandonedFor(e: Event, session: Option<string>, r: Result<Uploaded, Error>) {
    && session.Some? && e.Sent? && e.request == Abandon(session.value)
    && r == Err(AbandonVerdict(session.value, e.reply))
  }

  lemma FreshQuiet(events: seq<Event>, setting: Setting, start: Opened)
    requires |setting.source| < TWO_64 && setting.resume.None?
    requires FreshOpening(events, setting.source, setting.digest, setting.chunkRequest, start)
    ensures QuietOpening([Checked(false)] + events, setting, start)
  {
    hide Count;
    hide MissingFrom;
    assert events == [events[0]] + events[1..];
    NotCounted([Checked(false)] + events, Statuses);
  }

  lemma ReadQuiet(read: Event, setting: Setting, start: Opened)
    requires setting.resume.Some? && read.Sent? && read.request.Status? && start != Ended(Err(Cancelled))
    ensures QuietOpening([Checked(false)] + [read], setting, start)
  {
    hide Count;
    CountAppend([Checked(false)], [read], Statuses);
    CountOne(Checked(false), Statuses);
    CountOne(read, Statuses);
  }

  lemma BridgedQuiet(read: Event, polls: seq<Event>, ending: seq<Event>, setting: Setting, start: Opened, sid: string, attempt: string,
                     polled: Result<Uploaded, Error>)
    requires setting.resume.Some? && read.Sent? && read.request.Status? && start.Ended?
    requires PollRun(polls, sid, attempt, setting.pollBudget, polled)
    requires AbandonRun(ending, setting.resume.value, polled, start.outcome)
    ensures QuietOpening([Checked(false)] + ([read] + (polls + ending)), setting, start)
  {
    hide Count;
    var all := [Checked(false)] + ([read] + (polls + ending));
    CountAppend([Checked(false)], [read] + (polls + ending), Statuses);
    CountAppend([read], polls + ending, Statuses);
    CountOne(Checked(false), Statuses);
    CountOne(read, Statuses);
    NotCounted(polls + ending, Statuses);
    assert ending != [] ==> all[|all| - 1] == ending[0];
  }

  lemma ResumedQuiet(events: seq<Event>, setting: Setting, start: Opened)
    requires setting.resume.Some? && ResumedOpening(events, setting.resume.value, setting.pollBudget, start)
    ensures QuietOpening([Checked(false)] + events, setting, start)
  {
    hide QuietOpening;
    hide PollRun;
    hide AbandonRun;
    assert events == [events[0]] + events[1..];
    var status := ParseStatus(events[0].reply);
    if status.Ok? && IsAssembling(status.value) {
      var session, rest := status.value, events[1..];
      var n, polled :| 0 <= n <= |rest| && BridgedAt(rest, n, polled, session, setting.resume.value, setting.pollBudget, start.outcome);
      assert rest == rest[..n] + rest[n..];
      BridgedQuiet(events[0], rest[..n], rest[n..], setting, start, session.sid, session.attempt.value, polled);
    } else {
      assert events == [events[0]];
      ReadQuiet(events[0], setting, start);
    }
  }

  lemma OpeningQuiet(events: seq<Event>, setting: Setting, start: Opened)
    requires |setting.source| < TWO_64 && OpeningRun(events, setting, start)
    ensures QuietOpening(events, setting, start)
  {
    hide FreshOpening;
    hide ResumedOpening;
    if events == [Checked(true)] {
      CountOne(Checked(true), Statuses);
    } else {
      assert events == [Checked(false)] + events[1..];
      if setting.resume.Some? {
        ResumedQuiet(events[1..], setting, start);
      } else {
        FreshQuiet(events[1..], setting, start);
      }
    }
  }

  // ---------------------------------------------------------------------------
  // Bounds
  // ---------------------------------------------------------------------------

  lemma {:induction false} MissingExactly(count: U32, received: seq<U32>, index: U32)
    ensures index in MissingFrom(count, received) <==> index < count && index !in received
  {
    if count > 0 {
      MissingExactly(count - 1, received, index);
    }
  }

  lemma {:induction false} MissingOnce(count: U32, received: seq<U32>, index: U32)
    ensures multiset(MissingFrom(count, received))[index] <= 1
  {
    if count > 0 {
      MissingOnce(count - 1, received, index);
      MissingExactly(count - 1, received, index);
      var rest := MissingFrom(count - 1, received);
      if count - 1 in received {
        assert MissingFrom(count, received) == rest;
      } else {
        assert MissingFrom(count, received) == rest + [count - 1];
        OneMore(rest, count - 1, index);
      }
    }
  }

  lemma OneMore(rest: seq<U32>, last: U32, index: U32)
    ensures multiset(rest + [last])[index] == multiset(rest)[index] + (if last == index then 1 else 0)
    ensures index !in rest ==> multiset(rest)[index] == 0
  {
  }

  /** How often an index is due before the first chunk: once if the session is fresh, else as its status lists it. */
  lemma DueAtOpening(t: Trace, setting: Setting, r: Result<Uploaded, Error>, index: U32)
    requires Run(t, setting, r) && t.start.Ready?
    ensures multiset(t.start.grid.missing)[index] <= Listed(t.opening, index) + (if setting.resume.None? then 1 else 0)
  {
    hide Run;
    hide Listed;
    if setting.resume.None? {
      var received := FreshSession(t, setting, r);
      MissingOnce(t.start.grid.chunkCount, received, index);
    } else {
      var session := ResumedSession(t, setting, r);
      ListedAppend([t.opening[0]], [t.opening[1]], index);
      assert t.opening == [t.opening[0]] + [t.opening[1]];
      ListedOne(t.opening[1], index);
    }
  }

  lemma EndingCounts(t: Trace, setting: Setting, r: Result<Uploaded, Error>, kind: Kind)
    requires Run(t, setting, r) && !kind.Abandons?
    ensures Count(Log(t), kind) == Count(t.opening, kind) + Count(t.transfer, kind)
  {
    hide Count;
    hide OpeningRun;
    hide TransferRun;
    CountAppend(t.opening + t.transfer, t.ending, kind);
    CountAppend(t.opening, t.transfer, kind);
    NotCounted(t.ending, kind);
  }

  /**
    Bounded work: at most three completes, at most three status reads and one more to resume, and at
    most three attempts at a chunk each time it is due, which is once in a fresh session and once for
    every status reply that lists it.
  */
  lemma RunBounds(t: Trace, setting: Setting, r: Result<Uploaded, Error>)
    requires Run(t, setting, r)
    ensures Count(Log(t), Completes) <= COMPLETE_RETRIES + 1
    ensures Count(Log(t), Statuses) <= COMPLETE_RETRIES + 1 + (if setting.resume.Some? then 1 else 0)
    ensures forall i: U32 :: Count(Log(t), PutOf(i)) <= CHUNK_ATTEMPTS * (Listed(Log(t), i) + (if setting.resume.None? then 1 else 0))
  {
    hide Run;
    hide Log;
    hide Count;
    hide Listed;
    PhasesOf(t, setting, r);
    EndingCounts(t, setting, r, Completes);
    EndingCounts(t, setting, r, Statuses);
    NotCounted(t.opening, Completes);
    forall i: U32
      ensures Count(Log(t), PutOf(i)) <= CHUNK_ATTEMPTS * (Listed(Log(t), i) + (if setting.resume.None? then 1 else 0))
    {
      EndingCounts(t, setting, r, PutOf(i));
      NotCounted(t.opening, PutOf(i));
      ListedInLog(t, i);
      if t.start.Ready? {
        DueAtOpening(t, setting, r, i);
      }
    }
  }

  lemma ListedInLog(t: Trace, index: U32)
    ensures Listed(Log(t), index) >= Listed(t.opening, index) + Listed(t.transfer, index)
  {
    hide Listed;
    ListedAppend(t.opening + t.transfer, t.ending, index);
    ListedAppend(t.opening, t.transfer, index);
  }

  /** How often an index is due before the first chunk. */
  function Due(start: Opened, index: U32): nat {
    if start.Ready? then multiset(start.grid.missing)[index] else 0
  }

  /** The phases of a run, summed up. */
  lemma PhasesOf(t: Trace, setting: Setting, r: Result<Uploaded, Error>)
    requires Run(t, setting, r)
    ensures QuietOpening(t.opening, setting, t.start)
    ensures Count(t.transfer, Completes) <= COMPLETE_RETRIES + 1 && Count(t.transfer, Statuses) <= COMPLETE_RETRIES + 1
    ensures t.start.Ready? ==>
      TransferKeeps(t.transfer, setting.source, t.start.grid, KeyFor(t.start.grid, setting.idempotencyKey), t.inner)
    ensures t.start.Ready? ==> AbandonRun(t.ending, t.start.grid.sid, t.inner, r)
    ensures t.start.Ended? ==> t.transfer == [] && t.ending == [] && r == t.start.outcome
    ensures forall i: U32 :: Count(t.transfer, PutOf(i)) <= CHUNK_ATTEMPTS * (Due(t.start, i) + Listed(t.transfer, i))
  {
    hide Count;
    hide Listed;
    hide OpeningRun;
    hide QuietOpening;
    hide Delivered;
    hide Answered;
    hide Climbs;
    hide TransferRun;
    OpeningQuiet(t.opening, setting, t.start);
    NoEvents(Completes);
    NoEvents(Statuses);
    if t.start.Ready? {
      TransferFacts(t.transfer, setting.source, t.start.grid, KeyFor(t.start.grid, setting.idempotencyKey), setting.pollBudget, t.inner);
    } else {
      forall i: U32
        ensures Count(t.transfer, PutOf(i)) == 0
      {
        NoEvents(PutOf(i));
      }
    }
  }

  /** Reported progress climbs from the bytes the server already held to at most the total, and none is reported without a session. */
  lemma RunProgress(t: Trace, setting: Setting, r: Result<Uploaded, Error>)
    requires Run(t, setting, r)
    ensures if t.start.Ready? then Climbs(Log(t), AckedBytes(t.start.grid), t.start.grid.totalBytes) else Climbs(Log(t), 0, 0)
  {
    hide Run;
    hide Count;
    hide Listed;
    hide AckedBytes;
    hide Delivered;
    hide Answered;
    PhasesOf(t, setting, r);
    if t.start.Ready? {
      var low, high := AckedBytes(t.start.grid), t.start.grid.totalBytes;
      ClimbsAppend(t.opening, t.transfer, low, low, high);
      ClimbsAppend(t.opening + t.transfer, t.ending, low, high, high);
    }
  }

  // ---------------------------------------------------------------------------
  // Cancelling
  // ---------------------------------------------------------------------------

  /**
    A cancel is answered only with nothing sent at all, or with the deletion of the run's own session
    accepted by the server; and a session is deleted only for a cancel, once, last.
  */
  lemma RunCancel(t: Trace, setting: Setting, r: Result<Uploaded, Error>)
    requires Run(t, setting, r)
    ensures var log := Log(t);
      && (r == Err(Cancelled) ==>
            log == [Checked(true)]
            || (log != [] && AbandonedFor(log[|log| - 1], SessionOf(t, setting), r) && Gone(log[|log| - 1].reply)))
      && (forall k :: 0 <= k < |log| && log[k].Sent? && log[k].request.Abandon? ==>
            k == |log| - 1 && AbandonedFor(log[k], SessionOf(t, setting), r))
  {
    hide Run;
    hide Count;
    hide Listed;
    hide Delivered;
    hide Answered;
    hide Climbs;
    hide SendsChunks;
    PhasesOf(t, setting, r);
    var log := Log(t);
    if t.start.Ended? {
      assert log == t.opening;
    } else {
      forall k | 0 <= k < |log| && log[k].Sent? && log[k].request.Abandon?
        ensures k == |log| - 1 && AbandonedFor(log[k], SessionOf(t, setting), r)
      {
      }
      assert t.ending != [] ==> log[|log| - 1] == t.ending[0];
    }
  }

  // ---------------------------------------------------------------------------
  // Success
  // ---------------------------------------------------------------------------

  /** Where the URI of a successful run comes from. */
  ghost predicate Origin(t: Trace, setting: Setting, uploaded: Uploaded) {
    match t.start
    case Ready(grid) =>
      && uploaded.sid == Some(grid.sid)
      && Delivered(t.transfer, grid.sid, KeyFor(grid, setting.idempotencyKey), uploaded.uri)
    case Ended(_) =>
      && |t.opening| >= 2 && t.opening[1].Sent? && Success(t.opening[1].reply)
      && (IsDeduplicated(t.opening[1], uploaded) || IsRecorded(t.opening[1], uploaded) || IsCommitted(t.opening, uploaded))
  }

  /** The create found the bytes already stored. */
  predicate IsDeduplicated(e: Event, uploaded: Uploaded)
    requires e.Sent? && e.reply.Response?
  {
    e.request.Create? && e.reply.body == Deduplicated(uploaded.uri) && uploaded.sid.None?
  }

  /** The status recorded the URI. */
  predicate IsRecorded(e: Event, uploaded: Uploaded)
    requires e.Sent? && e.reply.Response?
  {
    && e.request.Status? && e.reply.body.SessionStatus?
    && e.reply.body.session.state == "completed" && e.reply.body.session.uri == Some(uploaded.uri)
    && uploaded.sid == Some(e.reply.body.session.sid)
  }

  /** The attempt the status named was committed. */
  predicate IsCommitted(opening: seq<Event>, uploaded: Uploaded)
    requires |opening| >= 2 && opening[1].Sent? && opening[1].reply.Response?
  {
    var body := opening[1].reply.body;
    && body.SessionStatus? && IsAssembling(body.session) && uploaded.sid == Some(body.session.sid)
    && CommitsTo(opening[|opening| - 1], body.session.attempt.value, uploaded.uri)
  }

  lemma BridgedOrigin(events: seq<Event>, n: nat, polled: Result<Uploaded, Error>, session: Session, sid: string, budget: nat,
                      r: Result<Uploaded, Error>)
    requires n <= |events| && session.attempt.Some? && BridgedAt(events, n, polled, session, sid, budget, r) && r.Ok?
    ensures events != [] && CommitsTo(events[|events| - 1], session.attempt.value, r.value.uri) && r.value.sid == Some(session.sid)
  {
    hide Count;
    assert events[n..] == [] && events[..n] == events;
  }

  lemma TransferSucceeds(t: Trace, setting: Setting, r: Result<Uploaded, Error>)
    requires Run(t, setting, r) && r.Ok? && t.start.Ready?
    ensures var grid := t.start.grid;
      && t.ending == [] && t.inner == r && r.value.sid == Some(grid.sid)
      && Delivered(t.transfer, grid.sid, KeyFor(grid, setting.idempotencyKey), r.value.uri)
      && Answered(t.transfer, grid.sid) && forall i :: i in grid.missing ==> IsAcknowledged(t.transfer, grid.sid, i)
  {
    hide OpeningRun;
    hide TransferRun;
    hide Delivered;
    hide Answered;
    hide IsAcknowledged;
    hide Count;
    hide Listed;
    hide Climbs;
    hide SendsChunks;
    TransferFacts(t.transfer, setting.source, t.start.grid, KeyFor(t.start.grid, setting.idempotencyKey), setting.pollBudget, t.inner);
  }

  /** A URI is only ever one the server gave for this session: by a create, a status, its complete or the attempt handed out. */
  lemma RunOrigin(t: Trace, setting: Setting, r: Result<Uploaded, Error>)
    requires Run(t, setting, r) && r.Ok?
    ensures Origin(t, setting, r.value)
  {
    hide Count;
    hide Listed;
    hide Climbs;
    hide SendsChunks;
    hide MissingFrom;
    hide PollRun;
    hide Delivered;
    hide Answered;
    hide TransferRun;
    if t.start.Ready? {
      TransferSucceeds(t, setting, r);
    }
    if t.start.Ended? && setting.resume.Some? {
      var rest := t.opening[2..];
      assert t.opening[1..][1..] == rest;
      var status := ParseStatus(t.opening[1].reply);
      if status.Ok? && IsAssembling(status.value) {
        var n, polled :| 0 <= n <= |rest|
          && BridgedAt(rest, n, polled, status.value, setting.resume.value, setting.pollBudget, t.start.outcome);
        BridgedOrigin(rest, n, polled, status.value, setting.resume.value, setting.pollBudget, t.start.outcome);
        assert rest[|rest| - 1] == t.opening[|t.opening| - 1];
      }
    }
  }

  // ---------------------------------------------------------------------------
  // What success means for the bytes
  // ---------------------------------------------------------------------------

  /** Every chunk put in a run goes to its session and carries what the grid assigns to its index, unless the offset wraps. */
  lemma ChunkIntegrity(t: Trace, setting: Setting, r: Result<Uploaded, Error>, k: nat)
    requires Run(t, setting, r)
    requires k < |Log(t)| && Log(t)[k].Sent? && Log(t)[k].request.Put?
    ensures t.start.Ready?
    ensures var grid, put := t.start.grid, Log(t)[k].request;
      && put.sid == grid.sid
      && ReadChunk(setting.source, put.index, grid.chunkBytes, grid.totalBytes) == Ok(put.chunk)
      && (grid.totalBytes <= |setting.source| ==>
            (put.chunk == Assigned(setting.source, put.index, grid.chunkBytes, grid.totalBytes)
             <==> OffsetHolds(put.index, grid.chunkBytes, grid.totalBytes)))
  {
    hide Run;
    hide Count;
    hide Listed;
    hide Climbs;
    hide Delivered;
    hide Answered;
    hide Assigned;
    hide OffsetHolds;
    hide ReadChunk;
    PhasesOf(t, setting, r);
    var log := Log(t);
    var grid, put := t.start.grid, log[k].request;
    assert SendsChunk(put, setting.source, grid);
    if grid.totalBytes <= |setting.source| {
      ReadChunkExactly(setting.source, put.index, grid.chunkBytes, grid.totalBytes);
    }
  }

  /** A successful transfer had every chunk acknowledged that was missing, and again every chunk a later status listed. */
  lemma SuccessCovers(t: Trace, setting: Setting, r: Result<Uploaded, Error>)
    requires Run(t, setting, r) && r.Ok? && t.start.Ready?
    ensures forall i :: i in t.start.grid.missing ==> IsAcknowledged(Log(t), t.start.grid.sid, i)
    ensures Answered(t.transfer, t.start.grid.sid)
  {
    hide Count;
    hide Listed;
    hide OpeningRun;
    hide IsAcknowledged;
    hide Delivered;
    hide Answered;
    hide Climbs;
    hide TransferRun;
    TransferSucceeds(t, setting, r);
    assert Log(t) == t.opening + t.transfer;
    forall i | i in t.start.grid.missing
      ensures IsAcknowledged(Log(t), t.start.grid.sid, i)
    {
      AcknowledgedAppend(t.opening, t.transfer, t.start.grid.sid, i);
    }
  }

  /** The log shows this chunk acknowledged for the index. */
  ghost predicate HasAcknowledged(log: seq<Event>, sid: string, i: U32, chunk: Bytes) {
    exists k :: 0 <= k < |log| && Acknowledges(log[k], sid, i) && log[k].request.chunk == chunk
  }

  /**
    The server holds these chunks: the ones the log shows acknowledged for the indices that were
    missing, and for the others the ones the grid assigns.
  */
  ghost predicate ServerHolds(log: seq<Event>, source: Bytes, grid: Grid, chunks: seq<Bytes>)
    requires grid.totalBytes <= |source|
  {
    && |chunks| == grid.chunkCount
    && (forall i: U32 :: i in grid.missing && i < grid.chunkCount ==>
          HasAcknowledged(log, grid.sid, i, chunks[i]))
    && (forall i: U32 :: i !in grid.missing && i < grid.chunkCount ==>
          chunks[i] == Assigned(source, i, grid.chunkBytes, grid.totalBytes))
  }

  /** What a run can have left at an index: the assigned chunk, or extra bytes past the end. */
  lemma HeldChunk(t: Trace, setting: Setting, r: Result<Uploaded, Error>, chunks: seq<Bytes>, i: U32)
    requires Run(t, setting, r) && t.start.Ready? && t.start.grid.totalBytes <= |setting.source|
    requires ServerHolds(Log(t), setting.source, t.start.grid, chunks) && i < |chunks|
    ensures var grid := t.start.grid;
      && AssignedOrExtra(setting.source, i, grid.chunkBytes, grid.totalBytes, chunks[i])
      && (chunks[i] == Assigned(setting.source, i, grid.chunkBytes, grid.totalBytes)
          <==> i !in grid.missing || OffsetHolds(i, grid.chunkBytes, grid.totalBytes))
  {
    hide Run;
    hide Log;
    hide Assigned;
    hide OffsetHolds;
    hide ReadChunk;
    var grid := t.start.grid;
    if i in grid.missing {
      var k :| 0 <= k < |Log(t)| && Acknowledges(Log(t)[k], grid.sid, i) && Log(t)[k].request.chunk == chunks[i];
      ChunkIntegrity(t, setting, r, k);
      ReadAssignedOrExtra(setting.source, i, grid.chunkBytes, grid.totalBytes, chunks[i]);
    }
  }

  /** The grid reaches its total, and no offset of a missing chunk wraps back below it. */
  ghost predicate CoversMissing(grid: Grid) {
    && grid.chunkCount * grid.chunkBytes >= grid.totalBytes
    && forall i: U32 :: i < grid.chunkCount && i in grid.missing ==> OffsetHolds(i, grid.chunkBytes, grid.totalBytes)
  }

  /**
    Upload integrity, end to end: what a server holds after a run, in index order, is the declared
    bytes exactly when the grid it chose reaches the total and no offset it makes the client compute
    wraps back into the file.
  */
  lemma RunReassembles(t: Trace, setting: Setting, r: Result<Uploaded, Error>, chunks: seq<Bytes>)
    requires Run(t, setting, r) && t.start.Ready? && t.start.grid.totalBytes <= |setting.source|
    requires ServerHolds(Log(t), setting.source, t.start.grid, chunks)
    ensures var grid := t.start.grid;
      Concat(chunks) == setting.source[..grid.totalBytes] <==> CoversMissing(grid)
  {
    hide Run;
    hide Log;
    hide Concat;
    hide Assigned;
    hide OffsetHolds;
    hide AssignedOrExtra;
    var grid := t.start.grid;
    forall i: U32 | i < |chunks|
      ensures AssignedOrExtra(setting.source, i, grid.chunkBytes, grid.totalBytes, chunks[i])
      ensures chunks[i] == Assigned(setting.source, i, grid.chunkBytes, grid.totalBytes)
         <==> i !in grid.missing || OffsetHolds(i, grid.chunkBytes, grid.totalBytes)
    {
      HeldChunk(t, setting, r, chunks, i);
    }
    ConcatExactly(setting.source, chunks, grid.chunkBytes, grid.totalBytes);
  }

  /** The chunk read for each index of the grid, empty where none can be read. */
  function ReadChunks(source: Bytes, grid: Grid): (chunks: seq<Bytes>)
    ensures |chunks| == grid.chunkCount
    ensures forall i: U32 :: i < grid.chunkCount ==> chunks[i] == ChunkOf(source, grid, i)
  {
    seq(grid.chunkCount, i requires 0 <= i < grid.chunkCount => ChunkOf(source, grid, i))
  }

  function ChunkOf(source: Bytes, grid: Grid, i: U32): Bytes {
    match ReadChunk(source, i, grid.chunkBytes, grid.totalBytes)
    case Ok(chunk) => chunk
    case Err(_) => []
  }

  /**
    A successful upload into a fresh session that held nothing: the log shows a chunk acknowledged for
    every index of the grid the server chose, and those chunks in index order are the source exactly
    when that grid covers the source without a wrapping offset.
  */
  lemma FreshUpload(t: Trace, setting: Setting, r: Result<Uploaded, Error>) returns (chunks: seq<Bytes>)
    requires Run(t, setting, r) && r.Ok? && t.start.Ready? && setting.resume.None?
    requires |t.opening| > 1 && t.opening[1].Sent? && t.opening[1].reply.Response?
    requires var grid := t.start.grid; t.opening[1].reply.body == Created(grid.sid, grid.chunkBytes, grid.chunkCount, [])
    ensures |chunks| == t.start.grid.chunkCount
    ensures forall i: U32 :: i < t.start.grid.chunkCount ==> HasAcknowledged(Log(t), t.start.grid.sid, i, chunks[i])
    ensures Concat(chunks) == setting.source <==> CoversMissing(t.start.grid)
  {
    hide Run;
    hide Log;
    hide Concat;
    hide ReadChunks;
    hide MissingFrom;
    hide ServerHolds;
    hide HasAcknowledged;
    hide CoversMissing;
    var received := FreshSession(t, setting, r);
    var grid := t.start.grid;
    chunks := ReadChunks(setting.source, grid);
    forall i: U32 | i < grid.chunkCount
      ensures i in grid.missing
    {
      MissingExactly(grid.chunkCount, received, i);
    }
    FreshHolds(t, setting, r);
    RunReassembles(t, setting, r, chunks);
    assert setting.source[..|setting.source|] == setting.source;
  }

  lemma FreshHolds(t: Trace, setting: Setting, r: Result<Uploaded, Error>)
    requires Run(t, setting, r) && r.Ok? && t.start.Ready? && t.start.grid.totalBytes <= |setting.source|
    requires forall i: U32 :: i < t.start.grid.chunkCount ==> i in t.start.grid.missing
    ensures var chunks := ReadChunks(setting.source, t.start.grid);
      && ServerHolds(Log(t), setting.source, t.start.grid, chunks)
      && forall i: U32 :: i < t.start.grid.chunkCount ==> HasAcknowledged(Log(t), t.start.grid.sid, i, chunks[i])
  {
    hide Run;
    hide Log;
    hide ReadChunk;
    hide ReadChunks;
    hide Assigned;
    hide OffsetHolds;
    var grid := t.start.grid;
    var chunks := ReadChunks(setting.source, grid);
    SuccessCovers(t, setting, r);
    forall i: U32 | i < grid.chunkCount
      ensures HasAcknowledged(Log(t), grid.sid, i, chunks[i])
    {
      assert IsAcknowledged(Log(t), grid.sid, i);
      var k :| 0 <= k < |Log(t)| && Acknowledges(Log(t)[k], grid.sid, i);
      ChunkIntegrity(t, setting, r, k);
    }
  }
}
