/** What every answer of an upload means: each error is what the log says, and nothing but the log stands between a server that cooperates and success. */
module UploadOutcomes {
  import opened Common
  import opened Chunks
  import opened UploadLog
  import opened UploadSpec
  import opened UploadFacts
  import opened UploadRuns

  // ---------------------------------------------------------------------------
  // Errors of a transfer
  // ---------------------------------------------------------------------------

  /** A successful reply whose body is not the one its request calls for. */
  predicate WrongBody(request: Request, body: Body) {
    match request
    case Put(_, _, _) => !body.Acknowledged?
    case Poll(_) => !body.Attempt?
    case Status(_) => !body.SessionStatus?
    case Complete(_, _) => body.Unparsable?
    case _ => false
  }

  /** A successful reply that says nothing a client can go on from. */
  predicate OutOfProtocol(request: Request, body: Body) {
    match request
    case Poll(_) => body == Attempt("committed", None)
    case Complete(_, _) => !body.Finished? && !body.Accepted? && !body.Unparsable?
    case _ => false
  }

  predicate SentLast(events: seq<Event>) {
    events != [] && events[|events| - 1].Sent?
  }

  predicate Accepts(reply: Reply) {
    reply.Response? && 200 <= reply.status <= 299
  }

  /** A refusal no retry can mend: any 4xx but a timeout or too many requests. */
  predicate Final(status: nat) {
    400 <= status <= 499 && status != 408 && status != 429
  }

  /** An incomplete answer to a complete. */
  predicate Incomplete(e: Event) {
    e.Sent? && e.request.Complete? && e.reply == Response(409, Problem("incomplete-upload"))
  }

  lemma IncompleteIs(e: Event)
    requires e.Sent? && e.request.Complete?
    ensures Incomplete(e) <==> e.reply.Response? && !Success(e.reply) && IsIncomplete(HttpError(e.reply))
  {
  }

  /** The error a refusal is reported as: its status, and the problem code in its body if there is one. */
  predicate Reports(e: Error, reply: Reply) {
    e.Http? && reply.Response? && e.status == reply.status
    && (reply.body.Problem? <==> e.code.Some?) && (reply.body.Problem? ==> e.code == Some(reply.body.code))
  }

  /** The refusal that ended a transfer: of a chunk for good or for the third time, of a complete that is not incomplete, or of anything else. */
  ghost predicate RefusedFor(events: seq<Event>, e: Error)
    requires SentLast(events)
  {
    var last := events[|events| - 1];
    && last.reply.Response? && !Accepts(last.reply) && Reports(e, last.reply) && !Incomplete(last)
    && (last.request.Put? && !Final(last.reply.status) ==> ThirdTry(events, last.request))
  }

  predicate Unmended(reply: Reply) {
    reply.Response? && !Accepts(reply) && !Final(reply.status)
  }

  /** The last events are the attempts at this chunk, three of them. */
  ghost predicate ThirdTry(events: seq<Event>, request: Request)
    requires request.Put?
  {
    exists j :: 0 <= j <= |events| && Count(events[j..], PutOf(request.index)) == 3
      && forall k :: j <= k < |events| && events[k].Sent? ==> events[k].request == request && Unmended(events[k].reply)
  }

  /** A chunk is due that the source is too short for. */
  ghost predicate CutShort(events: seq<Event>, source: Bytes, grid: Grid, due: seq<U32>, e: SourceTruncated) {
    exists i: U32 :: (i in due || Listed(events, i) > 0) && ReadChunk(source, i, grid.chunkBytes, grid.totalBytes) == Err(e)
  }

  /** What the log of a transfer has to say for it to end in this error. */
  ghost predicate Says(events: seq<Event>, source: Bytes, grid: Grid, due: seq<U32>, e: Error) {
    match e
    case Cancelled => EndsCancelled(events)
    case Truncated(cut) => events != [] && events[|events| - 1] == Checked(false) && CutShort(events, source, grid, due, cut)
    case NotCompleted => events != [] && forall k :: 0 <= k < |events| && events[k].Sent? && events[k].request.Complete? ==> Incomplete(events[k])
    case Transport => SentLast(events) && events[|events| - 1].reply.TransportError?
    case Http(_, _) => SentLast(events) && RefusedFor(events, e)
    case DecodeFailed => SentLast(events) && Accepts(events[|events| - 1].reply) && WrongBody(events[|events| - 1].request, events[|events| - 1].reply.body)
    case Protocol => SentLast(events) && Accepts(events[|events| - 1].reply) && OutOfProtocol(events[|events| - 1].request, events[|events| - 1].reply.body)
    case Failed => SentLast(events) && events[|events| - 1].request.Poll? && Accepts(events[|events| - 1].reply)
        && events[|events| - 1].reply.body.Attempt? && events[|events| - 1].reply.body.state != "committed"
    case InsufficientFunds => false
    case AbandonFailed(_, _) => false
  }

  /** What the end of a log says, it says whatever came before; but all completes count for giving up. */
  lemma SaysLater(x: seq<Event>, y: seq<Event>, source: Bytes, grid: Grid, due: seq<U32>, due': seq<U32>, e: Error)
    requires Says(y, source, grid, due, e)
    requires e.NotCompleted? ==> forall k :: 0 <= k < |x| && x[k].Sent? && x[k].request.Complete? ==> Incomplete(x[k])
    requires forall i :: i in due ==> i in due' || Listed(x, i) > 0
    ensures Says(x + y, source, grid, due', e)
  {
    hide Count;
    hide Listed;
    hide Incomplete;
    hide IsIncomplete;
    hide ReadChunk;
    assert y != [] ==> (x + y)[|x + y| - 1] == y[|y| - 1];
    if e.Truncated? {
      CutLater(x, y, source, grid, due, due', e.source);
    }
    if e.Http? && y[|y| - 1].request.Put? && !Final(y[|y| - 1].reply.status) {
      ThirdLater(x, y, y[|y| - 1].request);
    }
  }

  lemma CutLater(x: seq<Event>, y: seq<Event>, source: Bytes, grid: Grid, due: seq<U32>, due': seq<U32>, e: SourceTruncated)
    requires CutShort(y, source, grid, due, e)
    requires forall i :: i in due ==> i in due' || Listed(x, i) > 0
    ensures CutShort(x + y, source, grid, due', e)
  {
    hide ReadChunk;
    hide Listed;
    var i: U32 :| (i in due || Listed(y, i) > 0) && ReadChunk(source, i, grid.chunkBytes, grid.totalBytes) == Err(e);
    ListedAppend(x, y, i);
  }

  lemma ThirdLater(x: seq<Event>, y: seq<Event>, request: Request)
    requires request.Put? && ThirdTry(y, request)
    ensures ThirdTry(x + y, request)
  {
    hide Count;
    var j :| 0 <= j <= |y| && Count(y[j..], PutOf(request.index)) == 3
      && forall k :: j <= k < |y| && y[k].Sent? ==> y[k].request == request && Unmended(y[k].reply);
    assert (x + y)[|x| + j..] == y[j..];
    forall k | |x| + j <= k < |x + y| && (x + y)[k].Sent?
      ensures (x + y)[k].request == request && Unmended((x + y)[k].reply)
    {
      assert (x + y)[k] == y[k - |x|];
    }
  }

  /** The attempts at one chunk say why they failed. */
  lemma PutSays(puts: seq<Event>, source: Bytes, grid: Grid, due: seq<U32>, index: U32, chunk: Bytes, failure: Option<Error>)
    requires PutRun(puts, grid.sid, index, chunk, failure) && failure.Some?
    ensures Says(puts, source, grid, due, failure.value)
  {
    hide Count;
    var last := puts[|puts| - 1];
    if last.Sent? && last.reply.Response? && Transient(last.reply) {
      assert puts[0..] == puts;
      assert ThirdTry(puts, last.request);
    }
  }

  lemma PollSays(polls: seq<Event>, source: Bytes, grid: Grid, due: seq<U32>, attempt: string, budget: nat, r: Result<Uploaded, Error>)
    requires PollRun(polls, grid.sid, attempt, budget, r) && r.Err?
    ensures Says(polls, source, grid, due, r.error)
  {
    hide Count;
  }

  lemma {:induction false} SendSays(events: seq<Event>, source: Bytes, grid: Grid, missing: seq<U32>, acked: nat, acked': nat,
                                    failure: Option<Error>)
    requires SendRun(events, source, grid, missing, acked, acked', failure) && failure.Some?
    ensures Says(events, source, grid, missing, failure.value)
    decreases |missing|
  {
    hide PutRun;
    hide ReadChunk;
    hide Reached;
    hide Listed;
    if !events[0].cancelled && ReadChunk(source, missing[0], grid.chunkBytes, grid.totalBytes).Ok? {
      hide Says;
      var chunk := ReadChunk(source, missing[0], grid.chunkBytes, grid.totalBytes).value;
      var n, f: Option<Error> :| 1 <= n <= |events| && ChunkRun(events, n, f, chunk, source, grid, missing, acked, acked', failure);
      if f.Some? {
        assert events == [events[0]] + events[1..n];
        PutSays(events[1..n], source, grid, missing, missing[0], chunk, f);
        SaysAfter([events[0]], events[1..n], source, grid, missing, f.value);
      } else {
        assert events == events[..n + 1] + events[n + 1..];
        SendSays(events[n + 1..], source, grid, missing[1..], Reached(grid, missing[0], acked), acked', failure);
        RoundGivesUpNot(events, source, grid, missing, acked, acked', failure);
        SaysLater(events[..n + 1], events[n + 1..], source, grid, missing[1..], missing, failure.value);
      }
    } else if !events[0].cancelled {
      assert missing[0] in missing;
    }
  }

  lemma SaysAfter(x: seq<Event>, y: seq<Event>, source: Bytes, grid: Grid, due: seq<U32>, e: Error)
    requires Says(y, source, grid, due, e)
    requires forall k :: 0 <= k < |x| && x[k].Sent? && x[k].request.Complete? ==> Incomplete(x[k])
    ensures Says(x + y, source, grid, due, e)
  {
    hide Says;
    hide Listed;
    hide Incomplete;
    SaysLater(x, y, source, grid, due, due, e);
  }

  /** A round of chunks completes nothing, so it never gives up. */
  lemma {:induction false} RoundGivesUpNot(events: seq<Event>, source: Bytes, grid: Grid, missing: seq<U32>, acked: nat, acked': nat,
                                           failure: Option<Error>)
    requires SendRun(events, source, grid, missing, acked, acked', failure)
    ensures failure != Some(NotCompleted)
    ensures forall k :: 0 <= k < |events| && events[k].Sent? ==> !events[k].request.Complete?
    decreases |missing|
  {
    hide ReadChunk;
    hide Reached;
    hide PutRun;
    if missing != [] && !events[0].cancelled && ReadChunk(source, missing[0], grid.chunkBytes, grid.totalBytes).Ok? {
      var chunk := ReadChunk(source, missing[0], grid.chunkBytes, grid.totalBytes).value;
      var n, f: Option<Error> :| 1 <= n <= |events| && ChunkRun(events, n, f, chunk, source, grid, missing, acked, acked', failure);
      PutsOnly(events[1..n], grid.sid, missing[0], chunk, f);
      if f.None? {
        RoundGivesUpNot(events[n + 1..], source, grid, missing[1..], Reached(grid, missing[0], acked), acked', failure);
      }
      forall k | 0 <= k < |events| && events[k].Sent?
        ensures !events[k].request.Complete?
      {
        if 1 <= k < n {
          assert events[k] == events[1..n][k - 1];
        } else if k > n {
          assert events[k] == events[n + 1..][k - n - 1];
        }
      }
    }
  }

  lemma PutsOnly(puts: seq<Event>, sid: string, index: U32, chunk: Bytes, failure: Option<Error>)
    requires PutRun(puts, sid, index, chunk, failure)
    ensures failure != Some(NotCompleted)
    ensures forall k :: 0 <= k < |puts| && puts[k].Sent? ==> !puts[k].request.Complete?
  {
    hide Count;
  }

  /** An answer to a complete other than an incomplete one says why it ends the transfer. */
  lemma CompletedSays(events: seq<Event>, source: Bytes, grid: Grid, due: seq<U32>, budget: nat, r: Result<Uploaded, Error>)
    requires |events| >= 2 && events[0] == Checked(false) && events[1].Sent? && events[1].request.Complete? && Success(events[1].reply)
    requires CompletedRun(events[2..], grid.sid, events[1].reply.body, budget, r) && r.Err?
    ensures Says(events, source, grid, due, r.error)
    ensures r != Err(NotCompleted)
  {
    hide Count;
    hide Listed;
    var polls := events[2..];
    assert events == events[..2] + polls;
    match events[1].reply.body
    case Accepted(attempt) =>
      PollSays(polls, source, grid, due, attempt, budget, r);
      SaysLater(events[..2], polls, source, grid, due, due, r.error);
    case _ =>
  }

  lemma {:induction false} CompleteSays(events: seq<Event>, source: Bytes, grid: Grid, key: string, tries: nat, acked: nat, budget: nat,
                                        r: Result<Uploaded, Error>, due: seq<U32>)
    requires CompleteRun(events, source, grid, key, tries, acked, budget, r) && r.Err? && tries > 0
    ensures Says(events, source, grid, due, r.error)
    decreases tries, 0
  {
    hide ReadChunk;
    hide Listed;
    hide Count;
    hide IsIncomplete;
    if !events[0].cancelled {
      var reply := events[1].reply;
      IncompleteIs(events[1]);
      if reply.Response? && Success(reply) {
        hide Says;
        hide CompletedRun;
        CompletedSays(events, source, grid, due, budget, r);
      } else if reply.Response? && IsIncomplete(HttpError(reply)) {
        hide Says;
        hide ResumeRun;
        var head, tail := events[..2], events[2..];
        assert events == head + tail;
        ResumeSays(tail, source, grid, key, tries - 1, acked, budget, r, due);
        SaysAfter(head, tail, source, grid, due, r.error);
      }
    }
  }

  lemma {:induction false} ResumeSays(events: seq<Event>, source: Bytes, grid: Grid, key: string, tries: nat, acked: nat, budget: nat,
                                      r: Result<Uploaded, Error>, due: seq<U32>)
    requires ResumeRun(events, source, grid, key, tries, acked, budget, r) && r.Err?
    ensures Says(events, source, grid, due, r.error)
    decreases tries, 2
  {
    hide RoundThen;
    hide Listed;
    hide Count;
    if ParseStatus(events[0].reply).Ok? {
      hide Says;
      var missing := ParseStatus(events[0].reply).value.missing;
      var m, acked', f: Option<Error> :| 1 <= m <= |events| && RoundThen(events, m, acked', f, missing, source, grid, key, tries, acked, budget, r);
      RoundSays(events, m, acked', f, missing, source, grid, key, tries, acked, budget, r, due);
    }
  }

  lemma {:induction false} RoundSays(events: seq<Event>, m: nat, acked': nat, f: Option<Error>, missing: seq<U32>, source: Bytes,
                                     grid: Grid, key: string, tries: nat, acked: nat, budget: nat, r: Result<Uploaded, Error>,
                                     due: seq<U32>)
    requires 1 <= m <= |events| && r.Err?
    requires events[0].Sent? && events[0].request == Status(grid.sid)
    requires ParseStatus(events[0].reply).Ok? && ParseStatus(events[0].reply).value.missing == missing
    requires RoundThen(events, m, acked', f, missing, source, grid, key, tries, acked, budget, r)
    ensures Says(events, source, grid, due, r.error)
    decreases tries, 1
  {
    hide Says;
    hide SendRun;
    hide CompleteRun;
    hide Listed;
    hide Count;
    var read, sends, rest := events[0], events[1..m], events[m..];
    RoundGivesUpNot(sends, source, grid, missing, acked, acked', f);
    if f.Some? {
      assert events == [read] + sends;
      SendSays(sends, source, grid, missing, acked, acked', f);
      forall i | i in missing
        ensures Listed([read], i) > 0
      {
        ListedOne(read, i);
      }
      SaysLater([read], sends, source, grid, missing, due, r.error);
    } else {
      var before := events[..m];
      assert events == before + rest;
      forall k | 0 <= k < |before| && before[k].Sent?
        ensures !before[k].request.Complete?
      {
        assert k > 0 ==> before[k] == sends[k - 1];
      }
      if tries == 0 {
        SpentSays(before, rest, source, grid, key, acked', budget, r, due);
      } else {
        CompleteSays(rest, source, grid, key, tries, acked', budget, r, due);
        SaysAfter(before, rest, source, grid, due, r.error);
      }
    }
  }

  lemma SpentSays(before: seq<Event>, rest: seq<Event>, source: Bytes, grid: Grid, key: string, acked: nat, budget: nat,
                  r: Result<Uploaded, Error>, due: seq<U32>)
    requires CompleteRun(rest, source, grid, key, 0, acked, budget, r) && before != []
    requires forall k :: 0 <= k < |before| && before[k].Sent? ==> !before[k].request.Complete?
    ensures r == Err(NotCompleted) && Says(before + rest, source, grid, due, NotCompleted)
  {
  }

  /** Every error of a transfer is what its log says. */
  lemma TransferSays(events: seq<Event>, source: Bytes, grid: Grid, key: string, budget: nat, r: Result<Uploaded, Error>)
    requires TransferRun(events, source, grid, key, budget, r) && r.Err?
    ensures Says(events, source, grid, grid.missing, r.error)
  {
    hide SendRun;
    hide CompleteRun;
    hide Says;
    hide AckedBytes;
    var n, acked, f: Option<Error> :| 0 <= n <= |events| && TransferAt(events, n, acked, f, source, grid, key, budget, r);
    var sends, completes := events[..n], events[n..];
    assert events == sends + completes;
    RoundGivesUpNot(sends, source, grid, grid.missing, AckedBytes(grid), acked, f);
    if f.Some? {
      assert events == sends;
      SendSays(sends, source, grid, grid.missing, AckedBytes(grid), acked, f);
    } else {
      CompleteSays(completes, source, grid, key, COMPLETE_RETRIES + 1, acked, budget, r, grid.missing);
      SaysAfter(sends, completes, source, grid, grid.missing, r.error);
    }
  }

  // ---------------------------------------------------------------------------
  // Errors of a run
  // ---------------------------------------------------------------------------

  /** What an opening has to say for the run to end in it with this error. */
  ghost predicate OpeningSays(opening: seq<Event>, e: Error) {
    if opening == [Checked(true)] then e == Cancelled
    else
      SentLast(opening) &&
      var last := opening[|opening| - 1];
      match e
      case Transport => !last.request.Abandon? && last.reply.TransportError?
      case Http(_, _) => !last.request.Abandon? && last.reply.Response? && !Accepts(last.reply) && Reports(e, last.reply)
      case InsufficientFunds => last.request.Create? && last.reply.Response? && last.reply.status == 402
      case DecodeFailed => Accepts(last.reply) && (WrongBody(last.request, last.reply.body) || WrongCreated(last))
      case Protocol => Accepts(last.reply) && (OutOfProtocol(last.request, last.reply.body) || RecordsNoUri(last))
      case Failed => Accepts(last.reply) && (RecordsFailure(last) ||
          (last.request.Poll? && last.reply.body.Attempt? && last.reply.body.state != "committed"))
      case Cancelled => AbandonedAfterCancel(opening) && Deleted(last.reply)
      case AbandonFailed(sid, cause) => AbandonedAfterCancel(opening) && last.request == Abandon(sid) && NotDeleted(last.reply, cause)
      case _ => false
  }

  /** The session is gone: deleted now, or before. */
  predicate Deleted(reply: Reply) {
    Accepts(reply) || (reply.Response? && (reply.status == 404 || reply.status == 410))
  }

  predicate NotDeleted(reply: Reply, cause: Error) {
    if reply.TransportError? then cause == Transport else !Deleted(reply) && Reports(cause, reply)
  }

  predicate WrongCreated(e: Event)
    requires e.Sent? && e.reply.Response?
  {
    e.request.Create? && (if e.reply.status == 200 then !e.reply.body.Deduplicated? else !e.reply.body.Created?)
  }

  predicate RecordsNoUri(e: Event)
    requires e.Sent? && e.reply.Response?
  {
    e.request.Status? && e.reply.body.SessionStatus? && e.reply.body.session.state == "completed" && e.reply.body.session.uri.None?
  }

  predicate RecordsFailure(e: Event)
    requires e.Sent? && e.reply.Response?
  {
    e.request.Status? && e.reply.body.SessionStatus? && e.reply.body.session.state in {"failed", "expired"}
  }

  /** The last thing sent is the deletion of a session, right after a cancel was seen. */
  predicate AbandonedAfterCancel(events: seq<Event>) {
    |events| >= 2 && events[|events| - 1].Sent? && events[|events| - 1].request.Abandon? && events[|events| - 2] == Checked(true)
  }

  /**
    Every error of a run is what its log says: of the opening, where it ended there; else of the
    transfer, a cancel turned into what the deletion of the session was answered with.
  */
  lemma ErrorsExplained(t: Trace, setting: Setting, r: Result<Uploaded, Error>)
    requires Run(t, setting, r) && r.Err?
    ensures if t.start.Ended? then Log(t) == t.opening && OpeningSays(t.opening, r.error)
      else
        && t.inner.Err? && Says(t.transfer, setting.source, t.start.grid, t.start.grid.missing, t.inner.error)
        && (if t.inner.error.Cancelled? then
              && AbandonedAfterCancel(Log(t)) && Log(t)[|Log(t)| - 1].request == Abandon(t.start.grid.sid)
              && (if Deleted(Log(t)[|Log(t)| - 1].reply) then r.error == Cancelled
                  else r.error.AbandonFailed? && r.error.sid == t.start.grid.sid && NotDeleted(Log(t)[|Log(t)| - 1].reply, r.error.cause))
            else Log(t) == t.opening + t.transfer && r.error == t.inner.error)
        && (t.inner.error.NotCompleted? ==> Count(t.transfer, Completes) == Count(t.transfer, Statuses) == 3)
  {
    hide TransferRun;
    hide OpeningRun;
    hide OpeningSays;
    hide Count;
    hide Listed;
    hide SendsChunks;
    hide Climbs;
    hide Answered;
    hide Delivered;
    if t.start.Ended? {
      OpeningExplained(t.opening, setting, t.start);
    } else {
      var grid := t.start.grid;
      TransferSays(t.transfer, setting.source, grid, KeyFor(grid, setting.idempotencyKey), setting.pollBudget, t.inner);
      TransferFacts(t.transfer, setting.source, grid, KeyFor(grid, setting.idempotencyKey), setting.pollBudget, t.inner);
      hide Says;
      var log := Log(t);
      if t.inner.error.Cancelled? {
        assert log[|log| - 1] == t.ending[0];
        assert log[|log| - 2] == t.transfer[|t.transfer| - 1];
      }
    }
  }

  lemma OpeningExplained(opening: seq<Event>, setting: Setting, start: Opened)
    requires |setting.source| < TWO_64 && OpeningRun(opening, setting, start) && start.Ended? && start.outcome.Err?
    ensures OpeningSays(opening, start.outcome.error)
  {
    hide Bridged;
    if opening != [Checked(true)] {
      var events := opening[1..];
      if setting.resume.Some? {
        ResumedExplained(opening, setting.resume.value, setting.pollBudget, start);
      } else {
        assert opening == [opening[0], opening[1]];
      }
    }
  }

  lemma ResumedExplained(opening: seq<Event>, sid: string, budget: nat, start: Opened)
    requires |opening| >= 2 && opening[0] == Checked(false) && ResumedOpening(opening[1..], sid, budget, start)
    requires start.Ended? && start.outcome.Err?
    ensures OpeningSays(opening, start.outcome.error)
  {
    var events := opening[1..];
    var status := ParseStatus(events[0].reply);
    if status.Ok? && IsAssembling(status.value) {
      hide PollRun;
      hide OpeningSays;
      var rest := opening[2..];
      assert events[1..] == rest;
      var n, polled :| 0 <= n <= |rest| && BridgedAt(rest, n, polled, status.value, sid, budget, start.outcome);
      BridgeExplained(opening, n, polled, status.value, sid, budget, start.outcome);
    } else {
      assert opening == [opening[0], opening[1]];
    }
  }

  lemma BridgeExplained(opening: seq<Event>, n: nat, polled: Result<Uploaded, Error>, session: Session, sid: string, budget: nat,
                        r: Result<Uploaded, Error>)
    requires |opening| >= 2 && n <= |opening[2..]| && session.attempt.Some? && opening[0] == Checked(false)
    requires BridgedAt(opening[2..], n, polled, session, sid, budget, r) && r.Err?
    ensures OpeningSays(opening, r.error)
  {
    hide Count;
    var rest := opening[2..];
    var polls, ending := rest[..n], rest[n..];
    assert polls[|polls| - 1] == opening[n + 1];
    if polled == Err(Cancelled) {
      assert ending[0] == opening[n + 2] && |opening| == n + 3;
    } else {
      assert |opening| == n + 2;
    }
  }

  // ---------------------------------------------------------------------------
  // Going on
  // ---------------------------------------------------------------------------

  /** Every incomplete answer is followed at once by a status read of the session. */
  ghost predicate ReadAfterIncomplete(events: seq<Event>, sid: string) {
    forall k :: 0 <= k < |events| && Incomplete(events[k]) ==>
      k + 1 < |events| && events[k + 1].Sent? && events[k + 1].request == Status(sid)
  }

  lemma ReadsAppend(x: seq<Event>, y: seq<Event>, sid: string)
    requires ReadAfterIncomplete(x, sid) && ReadAfterIncomplete(y, sid)
    ensures ReadAfterIncomplete(x + y, sid)
  {
    hide Incomplete;
    forall k | 0 <= k < |x + y| && Incomplete((x + y)[k])
      ensures k + 1 < |x + y| && (x + y)[k + 1].Sent? && (x + y)[k + 1].request == Status(sid)
    {
      if k >= |x| {
        assert (x + y)[k] == y[k - |x|] && (x + y)[k + 1] == y[k - |x| + 1];
      }
    }
  }

  lemma NoCompletes(events: seq<Event>, sid: string)
    requires forall k :: 0 <= k < |events| && events[k].Sent? ==> !events[k].request.Complete?
    ensures ReadAfterIncomplete(events, sid)
  {
  }

  lemma {:induction false} CompleteReads(events: seq<Event>, source: Bytes, grid: Grid, key: string, tries: nat, acked: nat, budget: nat,
                                         r: Result<Uploaded, Error>)
    requires CompleteRun(events, source, grid, key, tries, acked, budget, r)
    ensures ReadAfterIncomplete(events, grid.sid)
    decreases tries, 0
  {
    hide CompletedRun;
    hide IsIncomplete;
    hide ReadAfterIncomplete;
    hide ResumeRun;
    if tries == 0 || events[0].cancelled {
      NoCompletes(events, grid.sid);
    } else {
      var reply, tail := events[1].reply, events[2..];
      assert events == [events[0]] + [events[1]] + tail;
      IncompleteIs(events[1]);
      if reply.Response? && !Success(reply) && IsIncomplete(HttpError(reply)) {
        ResumeReads(tail, source, grid, key, tries - 1, acked, budget, r);
        HeadReads(events[0], events[1], tail, grid.sid);
      } else {
        TailQuiet(tail, grid.sid, reply, budget, r);
        OneQuiet(events[0], events[1], tail, grid.sid);
      }
    }
  }

  lemma HeadReads(check: Event, complete: Event, tail: seq<Event>, sid: string)
    requires check.Checked? && tail != [] && tail[0].Sent? && tail[0].request == Status(sid) && ReadAfterIncomplete(tail, sid)
    ensures ReadAfterIncomplete([check] + [complete] + tail, sid)
  {
    var all := [check] + [complete] + tail;
    forall k | 0 <= k < |all| && Incomplete(all[k])
      ensures k + 1 < |all| && all[k + 1].Sent? && all[k + 1].request == Status(sid)
    {
      assert k >= 2 ==> all[k] == tail[k - 2];
      assert k >= 1 && k + 1 < |all| ==> all[k + 1] == tail[k - 1];
    }
  }

  lemma OneQuiet(check: Event, complete: Event, tail: seq<Event>, sid: string)
    requires check.Checked? && !Incomplete(complete)
    requires forall k :: 0 <= k < |tail| && tail[k].Sent? ==> !tail[k].request.Complete?
    ensures ReadAfterIncomplete([check] + [complete] + tail, sid)
  {
  }

  lemma TailQuiet(tail: seq<Event>, sid: string, reply: Reply, budget: nat, r: Result<Uploaded, Error>)
    requires if reply.Response? && Success(reply) then CompletedRun(tail, sid, reply.body, budget, r) else tail == []
    ensures forall k :: 0 <= k < |tail| && tail[k].Sent? ==> !tail[k].request.Complete?
  {
    hide Count;
  }

  lemma {:induction false} ResumeReads(events: seq<Event>, source: Bytes, grid: Grid, key: string, tries: nat, acked: nat, budget: nat,
                                       r: Result<Uploaded, Error>)
    requires ResumeRun(events, source, grid, key, tries, acked, budget, r)
    ensures events != [] && events[0].Sent? && events[0].request == Status(grid.sid) && ReadAfterIncomplete(events, grid.sid)
    decreases tries, 1
  {
    hide SendRun;
    hide CompleteRun;
    hide ReadAfterIncomplete;
    if ParseStatus(events[0].reply).Err? {
      NoCompletes(events, grid.sid);
    } else {
      var missing := ParseStatus(events[0].reply).value.missing;
      var m, acked', f: Option<Error> :| 1 <= m <= |events| && RoundThen(events, m, acked', f, missing, source, grid, key, tries, acked, budget, r);
      var before := events[..m];
      RoundGivesUpNot(events[1..m], source, grid, missing, acked, acked', f);
      forall k | 0 <= k < |before| && before[k].Sent?
        ensures !before[k].request.Complete?
      {
        assert k > 0 ==> before[k] == events[1..m][k - 1];
      }
      NoCompletes(before, grid.sid);
      assert events == before + events[m..];
      if f.Some? {
        assert events == before;
      } else {
        CompleteReads(events[m..], source, grid, key, tries, acked', budget, r);
        ReadsAppend(before, events[m..], grid.sid);
      }
    }
  }

  /** An incomplete answer never ends an upload: the session's status is read right after it. */
  lemma IncompleteGoesOn(t: Trace, setting: Setting, r: Result<Uploaded, Error>)
    requires Run(t, setting, r) && t.start.Ready?
    ensures ReadAfterIncomplete(t.transfer, t.start.grid.sid)
  {
    hide SendRun;
    hide CompleteRun;
    hide OpeningRun;
    hide AbandonRun;
    hide ReadAfterIncomplete;
    hide AckedBytes;
    var grid, events := t.start.grid, t.transfer;
    var key := KeyFor(grid, setting.idempotencyKey);
    var n, acked, f: Option<Error> :| 0 <= n <= |events| && TransferAt(events, n, acked, f, setting.source, grid, key, setting.pollBudget, t.inner);
    RoundGivesUpNot(events[..n], setting.source, grid, grid.missing, AckedBytes(grid), acked, f);
    NoCompletes(events[..n], grid.sid);
    assert events == events[..n] + events[n..];
    if f.Some? {
      assert events == events[..n];
    } else {
      CompleteReads(events[n..], setting.source, grid, key, COMPLETE_RETRIES + 1, acked, setting.pollBudget, t.inner);
      ReadsAppend(events[..n], events[n..], grid.sid);
    }
  }

  // ---------------------------------------------------------------------------
  // Success
  // ---------------------------------------------------------------------------

  /** No cancel is seen, and every chunk is acknowledged. */
  ghost predicate Smooth(events: seq<Event>) {
    forall k :: 0 <= k < |events| ==>
      && events[k] != Checked(true)
      && (events[k].Sent? && events[k].request.Put? ==> Accepts(events[k].reply) && events[k].reply.body.Acknowledged?)
  }

  lemma SmoothParts(events: seq<Event>, i: nat, j: nat)
    requires Smooth(events) && i <= j <= |events|
    ensures Smooth(events[i..j])
  {
  }

  lemma SmoothPuts(puts: seq<Event>, sid: string, index: U32, chunk: Bytes, failure: Option<Error>)
    requires PutRun(puts, sid, index, chunk, failure) && Smooth(puts)
    ensures failure.None?
  {
    hide Count;
  }

  lemma {:induction false} SmoothRound(events: seq<Event>, source: Bytes, grid: Grid, missing: seq<U32>, acked: nat, acked': nat,
                                       failure: Option<Error>)
    requires SendRun(events, source, grid, missing, acked, acked', failure) && Smooth(events)
    requires forall i :: i in missing ==> ReadChunk(source, i, grid.chunkBytes, grid.totalBytes).Ok?
    ensures failure.None?
    decreases |missing|
  {
    hide PutRun;
    hide ReadChunk;
    hide Reached;
    hide Smooth;
    if missing != [] {
      assert events[0] == Checked(false) by {
        SmoothFirst(events);
      }
      var chunk := ReadChunk(source, missing[0], grid.chunkBytes, grid.totalBytes).value;
      var n, f: Option<Error> :| 1 <= n <= |events| && ChunkRun(events, n, f, chunk, source, grid, missing, acked, acked', failure);
      SmoothParts(events, 1, n);
      SmoothPuts(events[1..n], grid.sid, missing[0], chunk, f);
      SmoothParts(events, n + 1, |events|);
      assert events[n + 1..|events|] == events[n + 1..];
      SmoothRound(events[n + 1..], source, grid, missing[1..], Reached(grid, missing[0], acked), acked', failure);
    }
  }

  lemma SmoothFirst(events: seq<Event>)
    requires Smooth(events) && events != [] && events[0].Checked?
    ensures events[0] == Checked(false)
  {
  }

  /**
    Nothing else can stop an upload: with no cancel seen, a source that covers every missing chunk, every
    chunk acknowledged and a complete answered with a URI, the answer is that URI, for this session, and
    every missing chunk was sent.
  */
  lemma CooperationSucceeds(t: Trace, setting: Setting, r: Result<Uploaded, Error>)
    requires Run(t, setting, r) && t.start.Ready? && Smooth(t.transfer)
    requires forall i :: i in t.start.grid.missing ==>
      ReadChunk(setting.source, i, t.start.grid.chunkBytes, t.start.grid.totalBytes).Ok?
    requires forall k :: 0 <= k < |t.transfer| && t.transfer[k].Sent? && t.transfer[k].request.Complete? ==>
      Accepts(t.transfer[k].reply) && t.transfer[k].reply.body.Finished?
    ensures r.Ok? && r.value.sid == Some(t.start.grid.sid)
    ensures t.transfer != [] && var last := t.transfer[|t.transfer| - 1];
      && last.Sent? && last.reply.Response? && last.reply.body == Finished(r.value.uri)
      && last.request == Complete(t.start.grid.sid,
           if setting.idempotencyKey.Some? then setting.idempotencyKey.value else "resumable-" + t.start.grid.digest)
    ensures forall i :: i in t.start.grid.missing ==> IsAcknowledged(t.transfer, t.start.grid.sid, i)
  {
    hide SendRun;
    hide OpeningRun;
    hide Smooth;
    hide ReadChunk;
    hide AckedBytes;
    hide IsAcknowledged;
    hide Delivered;
    hide Answered;
    hide ResumeRun;
    hide PollRun;
    var grid, events := t.start.grid, t.transfer;
    var key := KeyFor(grid, setting.idempotencyKey);
    var n, acked, f: Option<Error> :| 0 <= n <= |events| && TransferAt(events, n, acked, f, setting.source, grid, key, setting.pollBudget, t.inner);
    SmoothParts(events, 0, n);
    SmoothRound(events[..n], setting.source, grid, grid.missing, AckedBytes(grid), acked, f);
    var completes := events[n..];
    SmoothParts(events, n, |events|);
    assert completes == events[n..|events|];
    SmoothFirst(completes);
    assert completes[1] == events[n + 1];
    assert t.inner.Ok? && |completes| == 2;
    TransferSucceeds(t, setting, r);
  }

  /**
    What a progress report says: the end of the chunk just acknowledged, computed in 64 bits and clamped to
    the total, unless more was held already.
  */
  lemma ProgressIs(grid: Grid, index: U32, acked: nat)
    ensures var done := if index == 0xffff_ffff then index else index + 1;
      var end := done * grid.chunkBytes % 0x1_0000_0000_0000_0000;
      && Reached(grid, index, acked) >= acked
      && (Reached(grid, index, acked) > acked ==> Reached(grid, index, acked) == if end < grid.totalBytes then end else grid.totalBytes)
      && (Reached(grid, index, acked) == acked ==> end <= acked || grid.totalBytes <= acked)
    ensures index < 0xffff_ffff && (index + 1) * grid.chunkBytes < 0x1_0000_0000_0000_0000 ==>
      Reached(grid, index, acked) == acked || Reached(grid, index, acked) == (index + 1) * grid.chunkBytes || Reached(grid, index, acked) == grid.totalBytes
  {
    WrapsNot(index + 1, grid.chunkBytes);
  }
}
