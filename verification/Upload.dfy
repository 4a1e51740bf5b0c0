/** The resumable upload client, against an arbitrary server and an arbitrary cancel predicate. */
module Upload {
  import opened Common
  import opened Chunks
  import opened UploadLog
  import opened UploadSpec
  import opened UploadSteps

  class Client {
    const source: Bytes
    const server: (seq<Event>, Request) -> Reply
    const cancel: seq<Event> -> bool
    /** The whole-file digest of a byte string, in hexadecimal. */
    const digest: Bytes -> string
    /** How many times an accepted attempt is polled before giving up. */
    const pollBudget: nat
    var log: seq<Event>

    constructor (source: Bytes, server: (seq<Event>, Request) -> Reply, cancel: seq<Event> -> bool, digest: Bytes -> string,
                 pollBudget: nat)
      ensures this.source == source && this.server == server && this.cancel == cancel
      ensures this.digest == digest && this.pollBudget == pollBudget && log == []
    {
      this.source := source;
      this.server := server;
      this.cancel := cancel;
      this.digest := digest;
      this.pollBudget := pollBudget;
      log := [];
    }

    method Send(request: Request) returns (reply: Reply)
      modifies this`log
      ensures log == old(log) + [Sent(request, reply)]
    {
      reply := server(log, request);
      log := log + [Sent(request, reply)];
    }

    method IsCancelled() returns (yes: bool)
      modifies this`log
      ensures log == old(log) + [Checked(yes)]
    {
      yes := cancel(log);
      log := log + [Checked(yes)];
    }

    method PutChunkWithRetry(sid: string, index: U32, chunk: Bytes) returns (failure: Option<Error>, ghost events: seq<Event>)
      modifies this`log
      ensures log == old(log) + events
      ensures PutRun(events, sid, index, chunk, failure)
    {
      hide Count;
      hide PutTries;
      hide PutRun;
      events := [];
      var last: Option<Error> := None;
      NoEvents(PutOf(index));
      NoTries(Put(sid, index, chunk));
      for attempt := 0 to CHUNK_ATTEMPTS
        invariant log == old(log) + events
        invariant Count(events, PutOf(index)) == attempt
        invariant PutTries(events, Put(sid, index, chunk))
        invariant attempt == CHUNK_ATTEMPTS ==> PutRun(events, sid, index, chunk, last)
        invariant attempt > 0 ==> last.Some?
      {
        ghost var tries := events;
        var cancelled := IsCancelled();
        events := events + [Checked(cancelled)];
        if cancelled {
          PutCancelled(tries, sid, index, chunk);
          return Some(Cancelled), events;
        }
        var reply := Send(Put(sid, index, chunk));
        events := events + [Sent(Put(sid, index, chunk), reply)];
        PutTried(tries, sid, index, chunk, reply);
        assert events == tries + [Checked(false), Sent(Put(sid, index, chunk), reply)];
        if reply.TransportError? {
          return Some(Transport), events;
        }
        if Success(reply) {
          failure := if reply.body.Acknowledged? then None else Some(DecodeFailed);
          return;
        }
        if TerminalStatus(reply.status) {
          return Some(HttpError(reply)), events;
        }
        last := Some(HttpError(reply));
      }
      failure := Some(if last.Some? then last.value else Protocol);
    }

    method SendMissing(grid: Grid, missing: seq<U32>, acked: nat)
      returns (failure: Option<Error>, acked': nat, ghost events: seq<Event>)
      modifies this`log
      ensures log == old(log) + events
      ensures SendRun(events, source, grid, missing, acked, acked', failure)
    {
      hide SendRun;
      hide SendContinues;
      hide PutRun;
      hide SpanBytes;
      events := [];
      acked' := acked;
      SendStarts(source, grid, missing, acked);
      assert missing[0..] == missing;
      for n := 0 to |missing|
        invariant log == old(log) + events
        invariant SendContinues(events, source, grid, missing, missing[n..], acked, acked')
      {
        ghost var before, rest, mid := events, missing[n..], acked';
        assert rest[0] == missing[n] && rest[1..] == missing[n + 1..];
        var cancelled := IsCancelled();
        events := events + [Checked(cancelled)];
        if cancelled {
          SendCancelled(source, grid, rest, mid);
          SendEnds(before, source, grid, missing, rest, acked, mid, [Checked(true)], mid, Some(Cancelled));
          failure := Some(Cancelled);
          return;
        }
        var chunk := ReadChunk(source, missing[n], grid.chunkBytes, grid.totalBytes);
        if chunk.Err? {
          failure := Some(Truncated(chunk.error));
          SendTruncated(source, grid, rest, mid, chunk.error);
          SendEnds(before, source, grid, missing, rest, acked, mid, [Checked(false)], mid, failure);
          return;
        }
        ghost var puts;
        failure, puts := PutChunkWithRetry(grid.sid, missing[n], chunk.value);
        assert old(log) + events + puts == old(log) + (events + puts);
        events := events + puts;
        if failure.Some? {
          SendFails(source, grid, rest, mid, chunk.value, puts, failure);
          SendEnds(before, source, grid, missing, rest, acked, mid, [Checked(false)] + puts, mid, failure);
          assert events == before + ([Checked(false)] + puts);
          return;
        }
        acked' := Max(SpanBytes(if missing[n] < MAX_U32 then missing[n] + 1 else MAX_U32, grid.chunkBytes, grid.totalBytes), acked');
        var progress := Progress(acked', grid.totalBytes, missing[n], grid.chunkCount);
        log := log + [progress];
        SendGoesOn(before, source, grid, missing, rest, acked, mid, chunk.value, puts, progress);
        assert old(log) + events + [progress] == old(log) + (events + [progress]);
        events := events + [progress];
      }
      SendNothing(source, grid, acked');
      SendEnds(events, source, grid, missing, [], acked, acked', [], acked', None);
      assert events + [] == events;
      failure := None;
    }

    /** The status document of a session. */
    method GetStatus(sid: string) returns (r: Result<Session, Error>, ghost event: Event)
      modifies this`log
      ensures log == old(log) + [event]
      ensures event.Sent? && event.request == Status(sid) && r == ParseStatus(event.reply)
    {
      var reply := Send(Status(sid));
      event := Sent(Status(sid), reply);
      r := if reply.TransportError? then Err(Transport)
           else if !Success(reply) then Err(HttpError(reply))
           else if reply.body.SessionStatus? then Ok(reply.body.session)
           else Err(DecodeFailed);
    }

    /** Poll an accepted attempt until it is committed or released, or the budget is spent. */
    method PollAttempt(sid: string, attempt: string) returns (r: Result<Uploaded, Error>, ghost events: seq<Event>)
      modifies this`log
      ensures log == old(log) + events
      ensures PollRun(events, sid, attempt, pollBudget, r)
    {
      hide Count;
      hide PollTries;
      hide PollRun;
      events := [];
      NoEvents(Polls);
      NoPolls(attempt);
      var budget := pollBudget;
      while true
        invariant log == old(log) + events
        invariant 0 <= budget <= pollBudget && Count(events, Polls) == pollBudget - budget
        invariant PollTries(events, attempt)
        decreases budget
      {
        ghost var tries := events;
        var cancelled := IsCancelled();
        events := events + [Checked(cancelled)];
        if cancelled {
          PollCancelled(tries, sid, attempt, pollBudget);
          return Err(Cancelled), events;
        }
        var reply := Send(Poll(attempt));
        events := events + [Sent(Poll(attempt), reply)];
        PollTried(tries, sid, attempt, pollBudget, reply);
        assert events == tries + [Checked(false), Sent(Poll(attempt), reply)];
        if reply.TransportError? {
          return Err(Transport), events;
        }
        if !Success(reply) {
          return Err(HttpError(reply)), events;
        }
        if !reply.body.Attempt? {
          return Err(DecodeFailed), events;
        }
        if reply.body.state == "committed" {
          r := if reply.body.committed.Some? then Ok(Uploaded(reply.body.committed.value, Some(sid))) else Err(Protocol);
          return;
        }
        if reply.body.state == "released" {
          return Err(Failed), events;
        }
        if budget == 0 {
          return Err(Failed), events;
        }
        budget := budget - 1;
        tries := events;
        cancelled := IsCancelled();
        events := events + [Checked(cancelled)];
        if cancelled {
          PollCancelled(tries, sid, attempt, pollBudget);
          return Err(Cancelled), events;
        }
        PollWaited(tries, attempt);
      }
    }

    /** The recorded outcome of a session that needs no more chunks, if it has one. */
    method TerminalFromStatus(session: Session) returns (r: Result<Option<Uploaded>, Error>, ghost polls: seq<Event>)
      modifies this`log
      ensures log == old(log) + polls
      ensures StatusRun(polls, session, pollBudget, r)
    {
      polls := [];
      if session.state == "completed" {
        r := if session.uri.Some? then Ok(Some(Uploaded(session.uri.value, Some(session.sid)))) else Err(Protocol);
      } else if session.state == "failed" || session.state == "expired" {
        r := Err(Failed);
      } else if session.state == "assembling" && session.attempt.Some? {
        var polled;
        polled, polls := PollAttempt(session.sid, session.attempt.value);
        r := if polled.Ok? then Ok(Some(polled.value)) else Err(polled.error);
      } else {
        r := Ok(None);
      }
    }

    /** Finalise: at most three completes, each incomplete answer followed by a status read and a round of chunks. */
    method CompleteSession(grid: Grid, key: string, acked: nat)
      returns (r: Result<Uploaded, Error>, acked': nat, ghost events: seq<Event>)
      modifies this`log
      ensures log == old(log) + events
      ensures CompleteRun(events, source, grid, key, COMPLETE_RETRIES + 1, acked, pollBudget, r)
    {
      hide CompleteRun;
      hide CompleteContinues;
      hide ResumeContinues;
      hide ResumeFailed;
      hide CompletedRun;
      hide IsIncomplete;
      var tries := COMPLETE_RETRIES + 1;
      events := [];
      acked' := acked;
      CompleteStarts(source, grid, key, tries, acked, pollBudget);
      for n := 0 to COMPLETE_RETRIES + 1
        invariant log == old(log) + events
        invariant CompleteContinues(events, source, grid, key, tries, tries - n, acked, acked', pollBudget)
      {
        ghost var before, left, mid := events, tries - n, acked';
        var cancelled := IsCancelled();
        events := events + [Checked(cancelled)];
        if cancelled {
          CompleteCancelled(source, grid, key, left, mid, pollBudget);
          CompleteEnds(before, source, grid, key, tries, left, acked, mid, pollBudget, [Checked(true)], Err(Cancelled));
          return Err(Cancelled), acked', events;
        }
        var reply := Send(Complete(grid.sid, key));
        ghost var head := [Checked(false), Sent(Complete(grid.sid, key), reply)];
        events := before + head;
        if reply.TransportError? {
          CompleteDecided(before, grid, key, left, acked, mid, reply, [], Err(Transport));
          return Err(Transport), acked', events;
        }
        if Success(reply) {
          ghost var polls;
          r, polls := CompleteBody(grid.sid, reply.body);
          CompleteDecided(before, grid, key, left, acked, mid, reply, polls, r);
          assert old(log) + events + polls == old(log) + (events + polls);
          events := events + polls;
          return;
        }
        if !IsIncomplete(HttpError(reply)) {
          CompleteDecided(before, grid, key, left, acked, mid, reply, [], Err(HttpError(reply)));
          return Err(HttpError(reply)), acked', events;
        }
        var failure;
        ghost var round;
        failure, acked', round := ResumeRound(grid, acked');
        assert old(log) + events + round == old(log) + (events + round);
        events := events + round;
        if failure.Some? {
          ResumeFails(before, grid, key, left, acked, mid, reply, round, failure.value);
          return Err(failure.value), acked', events;
        }
        CompleteGoesOn(before, source, grid, key, tries, left, acked, mid, pollBudget, reply, round, acked');
      }
      CompleteSpent(source, grid, key, acked', pollBudget);
      CompleteEnds(events, source, grid, key, tries, 0, acked, acked', pollBudget, [], Err(NotCompleted));
      assert events + [] == events;
      r := Err(NotCompleted);
    }

    lemma CompleteDecided(before: seq<Event>, grid: Grid, key: string, left: nat, acked: nat, mid: nat, reply: Reply, polls: seq<Event>,
                          r: Result<Uploaded, Error>)
      requires left > 0 && CompleteContinues(before, source, grid, key, COMPLETE_RETRIES + 1, left, acked, mid, pollBudget)
      requires if reply.TransportError? then polls == [] && r == Err(Transport)
        else if Success(reply) then CompletedRun(polls, grid.sid, reply.body, pollBudget, r)
        else polls == [] && !IsIncomplete(HttpError(reply)) && r == Err(HttpError(reply))
      ensures var events := before + [Checked(false), Sent(Complete(grid.sid, key), reply)];
        && CompleteRun(events + polls, source, grid, key, COMPLETE_RETRIES + 1, acked, pollBudget, r)
        && (polls == [] ==> events + polls == events)
    {
      hide CompleteRun;
      hide CompletedRun;
      hide CompleteContinues;
      hide IsIncomplete;
      var head := [Checked(false), Sent(Complete(grid.sid, key), reply)];
      CompleteDecides(source, grid, key, left, mid, pollBudget, reply, polls, r);
      CompleteEnds(before, source, grid, key, COMPLETE_RETRIES + 1, left, acked, mid, pollBudget, head + polls, r);
      assert before + head + polls == before + (head + polls);
    }

    lemma ResumeFails(before: seq<Event>, grid: Grid, key: string, left: nat, acked: nat, mid: nat, reply: Reply, round: seq<Event>, e: Error)
      requires left > 0 && CompleteContinues(before, source, grid, key, COMPLETE_RETRIES + 1, left, acked, mid, pollBudget)
      requires reply.Response? && !Success(reply) && IsIncomplete(HttpError(reply))
      requires ResumeFailed(round, source, grid, mid, e)
      ensures CompleteRun(before + [Checked(false), Sent(Complete(grid.sid, key), reply)] + round, source, grid, key, COMPLETE_RETRIES + 1,
                          acked, pollBudget, Err(e))
    {
      hide CompleteRun;
      hide ResumeRun;
      hide CompleteContinues;
      hide IsIncomplete;
      var head := [Checked(false), Sent(Complete(grid.sid, key), reply)];
      assert ResumeRun(round, source, grid, key, left - 1, mid, pollBudget, Err(e));
      CompleteResumes(source, grid, key, left, mid, pollBudget, reply, round, Err(e));
      CompleteEnds(before, source, grid, key, COMPLETE_RETRIES + 1, left, acked, mid, pollBudget, head + round, Err(e));
      assert before + head + round == before + (head + round);
    }

    /** The answer to an incomplete upload: read the status again and send what it still lacks. */
    method ResumeRound(grid: Grid, acked: nat) returns (failure: Option<Error>, acked': nat, ghost events: seq<Event>)
      modifies this`log
      ensures log == old(log) + events
      ensures if failure.Some? then ResumeFailed(events, source, grid, acked, failure.value)
        else ResumeContinues(events, source, grid, acked, acked')
    {
      hide SendRun;
      hide ResumeFailed;
      hide ResumeContinues;
      var status;
      ghost var read;
      status, read := GetStatus(grid.sid);
      events := [read];
      acked' := acked;
      if status.Err? {
        StatusFails(read, source, grid, acked);
        return Some(status.error), acked', events;
      }
      ghost var sends := [];
      if status.value.missing == [] {
        SendNothing(source, grid, acked);
        failure := None;
      } else {
        failure, acked', sends := SendMissing(grid, status.value.missing, acked);
      }
      assert old(log) + [read] + sends == old(log) + ([read] + sends);
      events := [read] + sends;
      if failure.Some? {
        RoundFails(read, sends, source, grid, acked, acked', failure);
      } else {
        RoundGoesOn(read, sends, source, grid, acked, acked');
      }
    }

    method CompleteBody(sid: string, body: Body) returns (r: Result<Uploaded, Error>, ghost polls: seq<Event>)
      modifies this`log
      ensures log == old(log) + polls
      ensures CompletedRun(polls, sid, body, pollBudget, r)
    {
      hide PollRun;
      polls := [];
      match body {
        case Finished(uri) =>
          r := Ok(Uploaded(uri, Some(sid)));
        case Accepted(attempt) =>
          r, polls := PollAttempt(sid, attempt);
        case Unparsable =>
          r := Err(DecodeFailed);
        case _ =>
          r := Err(Protocol);
      }
    }

    /** A cancel abandons the session; what the server answers decides whether the cancel stands. */
    method AbandonOnCancel(sid: string, e: Error) returns (outcome: Error, ghost events: seq<Event>)
      modifies this`log
      ensures log == old(log) + events
      ensures AbandonRun(events, sid, Err(e), Err(outcome))
    {
      events := [];
      if e != Cancelled {
        return e, events;
      }
      var reply := Send(Abandon(sid));
      events := [Sent(Abandon(sid), reply)];
      outcome := if reply.TransportError? then AbandonFailed(sid, Transport)
                 else if Gone(reply) then Cancelled
                 else AbandonFailed(sid, HttpError(reply));
    }

    /** Create a session, or learn that the bytes are already stored. */
    method CreateSession(chunkRequest: U64) returns (r: Result<Either, Error>, ghost event: Event)
      modifies this`log
      ensures log == old(log) + [event]
      ensures event.Sent? && event.request == Create(|source|, digest(source), chunkRequest) && r == ParseCreate(event.reply)
    {
      var request := Create(|source|, digest(source), chunkRequest);
      var reply := Send(request);
      event := Sent(request, reply);
      if reply.TransportError? {
        r := Err(Transport);
      } else if reply.status == 402 {
        r := Err(InsufficientFunds);
      } else if !Success(reply) {
        r := Err(HttpError(reply));
      } else if reply.status == 200 {
        r := if reply.body.Deduplicated? then Ok(Stored(reply.body.uri)) else Err(DecodeFailed);
      } else {
        r := match reply.body
             case Created(sid, chunkBytes, chunkCount, received) => Ok(Fresh(sid, chunkBytes, chunkCount, received))
             case _ => Err(DecodeFailed);
      }
    }

    /** Read an existing session, and adopt its grid unless it already ended. */
    method OpenExisting(sid: string) returns (start: Opened, ghost events: seq<Event>)
      modifies this`log
      ensures log == old(log) + events
      ensures ResumedOpening(events, sid, pollBudget, start)
    {
      hide PollRun;
      var status;
      ghost var read;
      status, read := GetStatus(sid);
      events := [read];
      if status.Err? {
        return Ended(Err(status.error)), events;
      }
      var session := status.value;
      var terminal;
      ghost var polls;
      terminal, polls := TerminalFromStatus(session);
      assert old(log) + [read] + polls == old(log) + ([read] + polls);
      events := [read] + polls;
      ghost var ending := [];
      if terminal.Err? {
        var outcome;
        outcome, ending := AbandonOnCancel(sid, terminal.error);
        assert old(log) + events + ending == old(log) + (events + ending);
        events := events + ending;
        start := Ended(Err(outcome));
      } else if terminal.value.Some? {
        start := Ended(Ok(terminal.value.value));
      } else {
        start := Ready(Grid(session.sid, session.chunkBytes, session.chunkCount, session.totalBytes, session.digest, session.missing));
      }
      if IsAssembling(session) {
        ghost var polled := if terminal.Ok? then Ok(terminal.value.value) else Err(terminal.error);
        assert events[1..] == polls + ending && (polls + ending)[..|polls|] == polls && (polls + ending)[|polls|..] == ending;
        assert BridgedAt(polls + ending, |polls|, polled, session, sid, pollBudget, start.outcome);
      }
    }

    /** Create a session over the whole source, unless the bytes are already stored. */
    method OpenFresh(chunkRequest: U64) returns (start: Opened, ghost events: seq<Event>)
      requires |source| < TWO_64
      modifies this`log
      ensures log == old(log) + events
      ensures FreshOpening(events, source, digest(source), chunkRequest, start)
    {
      var created;
      ghost var event;
      created, event := CreateSession(chunkRequest);
      events := [event];
      if created.Err? {
        return Ended(Err(created.error)), events;
      }
      match created.value {
        case Stored(uri) =>
          start := Ended(Ok(Uploaded(uri, None)));
        case Fresh(sid, chunkBytes, chunkCount, received) =>
          log := log + [Announced(sid)];
          events := events + [Announced(sid)];
          start := Ready(Grid(sid, chunkBytes, chunkCount, |source|, digest(source), MissingFrom(chunkCount, received)));
      }
    }

    /** Find the session to send to, or the outcome that makes sending pointless. */
    method Open(resume: Option<string>, ghost idempotencyKey: Option<string>, chunkRequest: U64)
      returns (start: Opened, ghost events: seq<Event>)
      requires |source| < TWO_64
      modifies this`log
      ensures log == old(log) + events
      ensures OpeningRun(events, Setting(source, digest(source), resume, idempotencyKey, chunkRequest, pollBudget), start)
    {
      hide FreshOpening;
      hide ResumedOpening;
      var cancelled := IsCancelled();
      events := [Checked(cancelled)];
      if cancelled {
        return Ended(Err(Cancelled)), events;
      }
      ghost var tail;
      if resume.Some? {
        start, tail := OpenExisting(resume.value);
      } else {
        start, tail := OpenFresh(chunkRequest);
      }
      assert old(log) + events + tail == old(log) + (events + tail);
      events := events + tail;
      assert events[1..] == tail;
    }

    /** Send what is missing, then complete. */
    method Transfer(grid: Grid, key: string) returns (r: Result<Uploaded, Error>, ghost events: seq<Event>)
      modifies this`log
      ensures log == old(log) + events
      ensures TransferRun(events, source, grid, key, pollBudget, r)
    {
      hide SendRun;
      hide CompleteRun;
      hide TransferRun;
      var failure, acked;
      failure, acked, events := SendMissing(grid, grid.missing, AckedBytes(grid));
      if failure.Some? {
        TransferStops(events, source, grid, key, pollBudget, acked, failure);
        return Err(failure.value), events;
      }
      ghost var sends, before := events, acked;
      ghost var completes;
      r, acked, completes := CompleteSession(grid, key, acked);
      TransferEnds(sends, completes, source, grid, key, pollBudget, before, r);
      assert old(log) + sends + completes == old(log) + (sends + completes);
      events := sends + completes;
    }

    /** The whole chunked upload, fresh or resumed: what it logs is a run with these settings and this answer. */
    method Chunked(resume: Option<string>, idempotencyKey: Option<string>, chunkRequest: U64)
      returns (r: Result<Uploaded, Error>, ghost t: Trace)
      requires |source| < TWO_64
      modifies this`log
      ensures log == old(log) + Log(t)
      ensures Run(t, Setting(source, digest(source), resume, idempotencyKey, chunkRequest, pollBudget), r)
    {
      hide OpeningRun;
      hide TransferRun;
      hide AbandonRun;
      var start;
      ghost var opening;
      start, opening := Open(resume, idempotencyKey, chunkRequest);
      match start {
        case Ended(outcome) =>
          t := Trace(opening, start, [], outcome, []);
          assert Log(t) == opening;
          return outcome, t;
        case Ready(grid) =>
          var key := KeyFor(grid, idempotencyKey);
          var inner;
          ghost var transfer, ending;
          inner, transfer := Transfer(grid, key);
          r, ending := Finish(grid.sid, inner);
          t := Trace(opening, start, transfer, inner, ending);
          assert old(log) + opening + transfer + ending == old(log) + Log(t);
      }
    }

    /** The answer of a transfer, a cancel turned into an abandon. */
    method Finish(sid: string, inner: Result<Uploaded, Error>) returns (r: Result<Uploaded, Error>, ghost events: seq<Event>)
      modifies this`log
      ensures log == old(log) + events
      ensures AbandonRun(events, sid, inner, r)
    {
      r, events := inner, [];
      if inner.Err? {
        var outcome;
        outcome, events := AbandonOnCancel(sid, inner.error);
        r := Err(outcome);
      }
    }
  }
}
