/**
  What a run of the resumable upload is, phase by phase: which requests follow which replies, for
  which session, and what the run then answers.
*/
module UploadSpec {
  import opened Common
  import opened Chunks
  import opened UploadLog

  // ---------------------------------------------------------------------------
  // Settings and sessions
  // ---------------------------------------------------------------------------

  /** What the caller asks for; `digest` is the whole-file digest of the source in hexadecimal. */
  datatype Setting = Setting(
    source: Bytes, digest: string, resume: Option<string>, idempotencyKey: Option<string>, chunkRequest: U64, pollBudget: nat)

  /** The chunk grid a session fixes, and what it still lacks. */
  datatype Grid = Grid(sid: string, chunkBytes: U64, chunkCount: U32, totalBytes: U64, digest: string, missing: seq<U32>)

  const CHUNK_ATTEMPTS: nat := 3
  const COMPLETE_RETRIES: nat := 2

  /** The completion key: the caller's, or one derived from the digest the session is addressed by. */
  function KeyFor(grid: Grid, idempotencyKey: Option<string>): string {
    if idempotencyKey.Some? then idempotencyKey.value else "resumable-" + grid.digest
  }

  /** The indices below `count` that were not received, in order. */
  function MissingFrom(count: U32, received: seq<U32>): seq<U32> {
    if count == 0 then []
    else MissingFrom(count - 1, received) + (if count - 1 in received then [] else [count - 1])
  }

  /** The bytes the server already holds, as a whole number of chunks of the grid. */
  function AckedBytes(grid: Grid): (n: nat)
    ensures n <= grid.totalBytes
  {
    var missing := |grid.missing| % (MAX_U32 + 1);
    SpanBytes(if grid.chunkCount >= missing then grid.chunkCount - missing else 0, grid.chunkBytes, grid.totalBytes)
  }

  // ---------------------------------------------------------------------------
  // Sending chunks
  // ---------------------------------------------------------------------------

  predicate Transient(reply: Reply) {
    reply.Response? && !Success(reply) && !TerminalStatus(reply.status)
  }

  /** What the event that ends the attempts at one chunk says. */
  function PutVerdict(e: Event): Option<Error> {
    if !e.Sent? then Some(Cancelled)
    else if e.reply.TransportError? then Some(Transport)
    else if !Success(e.reply) then Some(HttpError(e.reply))
    else if e.reply.body.Acknowledged? then None
    else Some(DecodeFailed)
  }

  /**
    The attempts at one chunk: the same request each time, each right after a cancel check, again only
    after a transient failure, at most three times; a transient failure is reported only the third time.
  */
  ghost predicate PutRun(events: seq<Event>, sid: string, index: U32, chunk: Bytes, failure: Option<Error>) {
    && events != []
    && (forall k :: 0 <= k < |events| ==> events[k].Checked? || (events[k].Sent? && events[k].request == Put(sid, index, chunk)))
    && (forall k :: 0 <= k < |events| && events[k].Sent? ==> k > 0 && events[k - 1] == Checked(false))
    && (forall k :: 0 <= k < |events| - 1 ==> events[k] == Checked(false) || (events[k].Sent? && Transient(events[k].reply)))
    && var last := events[|events| - 1];
       && failure == PutVerdict(last)
       && (last.Checked? ==> last == Checked(true))
       && Count(events, PutOf(index)) <= CHUNK_ATTEMPTS
       && (last.Sent? && Transient(last.reply) ==> Count(events, PutOf(index)) == CHUNK_ATTEMPTS)
  }

  /** The bytes held once this chunk is. */
  function Reached(grid: Grid, index: U32, acked: nat): nat {
    Max(SpanBytes(if index < MAX_U32 then index + 1 else MAX_U32, grid.chunkBytes, grid.totalBytes), acked)
  }

  /**
    A round of chunks, in the order listed: a cancel check, the chunk read from the source, its attempts
    and a progress report, for one after the other, until all are acknowledged or one of them fails.
  */
  ghost predicate SendRun(events: seq<Event>, source: Bytes, grid: Grid, missing: seq<U32>, acked: nat, acked': nat,
                          failure: Option<Error>)
    decreases |missing|
  {
    if missing == [] then events == [] && failure == None && acked' == acked
    else
      && events != [] && events[0].Checked?
      && if events[0].cancelled then |events| == 1 && failure == Some(Cancelled) && acked' == acked
         else
           match ReadChunk(source, missing[0], grid.chunkBytes, grid.totalBytes)
           case Err(e) => |events| == 1 && failure == Some(Truncated(e)) && acked' == acked
           case Ok(chunk) =>
             exists n, f: Option<Error> ::
               1 <= n <= |events| && ChunkRun(events, n, f, chunk, source, grid, missing, acked, acked', failure)
  }

  /** The attempts at the first chunk end before event `n`; unless they failed, the rest of the round follows. */
  ghost predicate ChunkRun(events: seq<Event>, n: nat, f: Option<Error>, chunk: Bytes, source: Bytes, grid: Grid, missing: seq<U32>,
                           acked: nat, acked': nat, failure: Option<Error>)
    requires 1 <= n <= |events| && missing != []
    decreases |missing|, 0
  {
    && PutRun(events[1..n], grid.sid, missing[0], chunk, f)
    && if f.Some? then n == |events| && failure == f && acked' == acked
       else
         && n < |events| && events[n] == Progress(Reached(grid, missing[0], acked), grid.totalBytes, missing[0], grid.chunkCount)
         && SendRun(events[n + 1..], source, grid, missing[1..], Reached(grid, missing[0], acked), acked', failure)
  }

  // ---------------------------------------------------------------------------
  // Polling and completing
  // ---------------------------------------------------------------------------

  predicate IsPending(reply: Reply) {
    Success(reply) && reply.body.Attempt? && reply.body.state != "committed" && reply.body.state != "released"
  }

  /** What the event that ends the polling of an attempt says. */
  function PollVerdict(e: Event, sid: string): Result<Uploaded, Error> {
    if !e.Sent? then Err(Cancelled)
    else if e.reply.TransportError? then Err(Transport)
    else if !Success(e.reply) then Err(HttpError(e.reply))
    else if !e.reply.body.Attempt? then Err(DecodeFailed)
    else if e.reply.body.state == "committed" then
      if e.reply.body.committed.Some? then Ok(Uploaded(e.reply.body.committed.value, Some(sid))) else Err(Protocol)
    else Err(Failed)
  }

  ghost predicate OnlyPolls(events: seq<Event>, attempt: string) {
    forall k :: 0 <= k < |events| ==> events[k].Checked? || (events[k].Sent? && events[k].request == Poll(attempt))
  }

  /** The polling of one attempt: again only while it is pending and the budget lasts. */
  ghost predicate PollRun(events: seq<Event>, sid: string, attempt: string, budget: nat, r: Result<Uploaded, Error>) {
    && events != []
    && OnlyPolls(events, attempt)
    && (forall k :: 0 <= k < |events| && events[k].Sent? ==> k > 0 && events[k - 1] == Checked(false))
    && (forall k :: 0 <= k < |events| - 1 ==> events[k] == Checked(false) || (events[k].Sent? && IsPending(events[k].reply)))
    && var last := events[|events| - 1];
       && r == PollVerdict(last, sid)
       && (last.Checked? ==> last == Checked(true))
       && Count(events, Polls) <= budget + 1
       && (last.Sent? && IsPending(last.reply) ==> Count(events, Polls) == budget + 1)
  }

  /** What a successful complete leads to: its own answer, or the polling of the attempt it hands out. */
  ghost predicate CompletedRun(polls: seq<Event>, sid: string, body: Body, budget: nat, r: Result<Uploaded, Error>) {
    match body
    case Finished(uri) => polls == [] && r == Ok(Uploaded(uri, Some(sid)))
    case Accepted(attempt) => PollRun(polls, sid, attempt, budget, r)
    case Unparsable => polls == [] && r == Err(DecodeFailed)
    case _ => polls == [] && r == Err(Protocol)
  }

  /**
    The completion phase with `tries` completes left. A cancel check, then a complete; an incomplete
    answer is met by a status read and a round of the chunks it lists, before the next try.
  */
  ghost predicate CompleteRun(events: seq<Event>, source: Bytes, grid: Grid, key: string, tries: nat, acked: nat, budget: nat,
                              r: Result<Uploaded, Error>)
    decreases tries, 0
  {
    if tries == 0 then events == [] && r == Err(NotCompleted)
    else
      && events != [] && events[0].Checked?
      && if events[0].cancelled then |events| == 1 && r == Err(Cancelled)
         else
           && |events| >= 2 && events[1].Sent? && events[1].request == Complete(grid.sid, key)
           && var reply := events[1].reply;
              if reply.TransportError? then |events| == 2 && r == Err(Transport)
              else if Success(reply) then CompletedRun(events[2..], grid.sid, reply.body, budget, r)
              else if !IsIncomplete(HttpError(reply)) then |events| == 2 && r == Err(HttpError(reply))
              else ResumeRun(events[2..], source, grid, key, tries - 1, acked, budget, r)
  }

  /** After an incomplete answer: a status read, the chunks it lists, and the tries that are left. */
  ghost predicate ResumeRun(events: seq<Event>, source: Bytes, grid: Grid, key: string, tries: nat, acked: nat, budget: nat,
                            r: Result<Uploaded, Error>)
    decreases tries, 2
  {
    && events != [] && events[0].Sent? && events[0].request == Status(grid.sid)
    && match ParseStatus(events[0].reply)
       case Err(e) => |events| == 1 && r == Err(e)
       case Ok(session) =>
         exists m, acked', f: Option<Error> ::
           1 <= m <= |events| && RoundThen(events, m, acked', f, session.missing, source, grid, key, tries, acked, budget, r)
  }

  ghost predicate RoundThen(events: seq<Event>, m: nat, acked': nat, f: Option<Error>, missing: seq<U32>, source: Bytes, grid: Grid,
                            key: string, tries: nat, acked: nat, budget: nat, r: Result<Uploaded, Error>)
    requires 1 <= m <= |events|
    decreases tries, 1
  {
    && SendRun(events[1..m], source, grid, missing, acked, acked', f)
    && if f.Some? then m == |events| && r == Err(f.value)
       else CompleteRun(events[m..], source, grid, key, tries, acked', budget, r)
  }

  /** Everything from the first chunk to the outcome: the missing chunks, then the completion phase. */
  ghost predicate TransferRun(events: seq<Event>, source: Bytes, grid: Grid, key: string, budget: nat, r: Result<Uploaded, Error>) {
    exists n, acked, f: Option<Error> :: 0 <= n <= |events| && TransferAt(events, n, acked, f, source, grid, key, budget, r)
  }

  ghost predicate TransferAt(events: seq<Event>, n: nat, acked: nat, f: Option<Error>, source: Bytes, grid: Grid, key: string, budget: nat,
                             r: Result<Uploaded, Error>)
    requires n <= |events|
  {
    && SendRun(events[..n], source, grid, grid.missing, AckedBytes(grid), acked, f)
    && if f.Some? then n == |events| && r == Err(f.value)
       else CompleteRun(events[n..], source, grid, key, COMPLETE_RETRIES + 1, acked, budget, r)
  }

  // ---------------------------------------------------------------------------
  // Opening and abandoning
  // ---------------------------------------------------------------------------

  datatype Either =
    | Stored(uri: string)
    | Fresh(sid: string, chunkBytes: U64, chunkCount: U32, received: seq<U32>)

  /** Either the upload is over before a chunk is due, or the grid to fill. */
  datatype Opened = Ended(outcome: Result<Uploaded, Error>) | Ready(grid: Grid)

  /** What the reply to a create says. */
  function ParseCreate(reply: Reply): Result<Either, Error> {
    if reply.TransportError? then Err(Transport)
    else if reply.status == 402 then Err(InsufficientFunds)
    else if !Success(reply) then Err(HttpError(reply))
    else if reply.status == 200 then (if reply.body.Deduplicated? then Ok(Stored(reply.body.uri)) else Err(DecodeFailed))
    else
      match reply.body
      case Created(sid, chunkBytes, chunkCount, received) => Ok(Fresh(sid, chunkBytes, chunkCount, received))
      case _ => Err(DecodeFailed)
  }

  /** What the reply to a status read says. */
  function ParseStatus(reply: Reply): Result<Session, Error> {
    if reply.TransportError? then Err(Transport)
    else if !Success(reply) then Err(HttpError(reply))
    else if reply.body.SessionStatus? then Ok(reply.body.session)
    else Err(DecodeFailed)
  }

  function AbandonVerdict(sid: string, reply: Reply): Error {
    if reply.TransportError? then AbandonFailed(sid, Transport)
    else if Gone(reply) then Cancelled
    else AbandonFailed(sid, HttpError(reply))
  }

  /** A cancel abandons the session, once and last; anything else passes through. */
  ghost predicate AbandonRun(events: seq<Event>, sid: string, inner: Result<Uploaded, Error>, r: Result<Uploaded, Error>) {
    if inner == Err(Cancelled) then
      && |events| == 1 && events[0].Sent? && events[0].request == Abandon(sid)
      && r == Err(AbandonVerdict(sid, events[0].reply))
    else events == [] && r == inner
  }

  /** A fresh session has the grid the server answered with, over the whole source. */
  ghost predicate FreshOpening(events: seq<Event>, source: Bytes, digest: string, chunkRequest: U64, start: Opened)
    requires |source| < TWO_64
  {
    && events != [] && events[0].Sent? && events[0].request == Create(|source|, digest, chunkRequest)
    && match ParseCreate(events[0].reply)
       case Err(e) => |events| == 1 && start == Ended(Err(e))
       case Ok(Stored(uri)) => |events| == 1 && start == Ended(Ok(Uploaded(uri, None)))
       case Ok(Fresh(sid, chunkBytes, chunkCount, received)) =>
         && events[1..] == [Announced(sid)]
         && start == Ready(Grid(sid, chunkBytes, chunkCount, |source|, digest, MissingFrom(chunkCount, received)))
  }

  /** The outcome a session's status records, if it records one without an attempt to poll. */
  function Recorded(session: Session): Opened {
    if session.state == "completed" then
      Ended(if session.uri.Some? then Ok(Uploaded(session.uri.value, Some(session.sid))) else Err(Protocol))
    else if session.state == "failed" || session.state == "expired" then Ended(Err(Failed))
    else Ready(Grid(session.sid, session.chunkBytes, session.chunkCount, session.totalBytes, session.digest, session.missing))
  }

  predicate IsAssembling(session: Session) {
    session.state == "assembling" && session.attempt.Some?
  }

  /** What a status already decides: nothing to poll unless the session is assembling. */
  ghost predicate StatusRun(polls: seq<Event>, session: Session, budget: nat, r: Result<Option<Uploaded>, Error>) {
    if IsAssembling(session) then
      && r != Ok(None)
      && PollRun(polls, session.sid, session.attempt.value, budget, if r.Ok? then Ok(r.value.value) else Err(r.error))
    else
      && polls == []
      && match r
         case Ok(None) => Recorded(session).Ready?
         case Ok(Some(uploaded)) => Recorded(session) == Ended(Ok(uploaded))
         case Err(e) => Recorded(session) == Ended(Err(e))
  }

  /** A resumed session has the grid of its status, unless the status already decides the outcome. */
  ghost predicate ResumedOpening(events: seq<Event>, sid: string, budget: nat, start: Opened) {
    && events != [] && events[0].Sent? && events[0].request == Status(sid)
    && match ParseStatus(events[0].reply)
       case Err(e) => |events| == 1 && start == Ended(Err(e))
       case Ok(session) =>
         if IsAssembling(session) then start.Ended? && Bridged(events[1..], session, sid, budget, start.outcome)
         else |events| == 1 && start == Recorded(session)
  }

  /** An assembling session is bridged to its attempt; a cancel meanwhile abandons it. */
  ghost predicate Bridged(events: seq<Event>, session: Session, sid: string, budget: nat, r: Result<Uploaded, Error>)
    requires session.attempt.Some?
  {
    exists n, polled :: 0 <= n <= |events| && BridgedAt(events, n, polled, session, sid, budget, r)
  }

  ghost predicate BridgedAt(events: seq<Event>, n: nat, polled: Result<Uploaded, Error>, session: Session, sid: string, budget: nat,
                            r: Result<Uploaded, Error>)
    requires n <= |events| && session.attempt.Some?
  {
    PollRun(events[..n], session.sid, session.attempt.value, budget, polled) && AbandonRun(events[n..], sid, polled, r)
  }

  /** Everything before the first chunk. */
  ghost predicate OpeningRun(events: seq<Event>, setting: Setting, start: Opened)
    requires |setting.source| < TWO_64
  {
    if events == [Checked(true)] then start == Ended(Err(Cancelled))
    else
      && events != [] && events[0] == Checked(false)
      && match setting.resume
         case Some(sid) => ResumedOpening(events[1..], sid, setting.pollBudget, start)
         case None => FreshOpening(events[1..], setting.source, setting.digest, setting.chunkRequest, start)
  }

  // ---------------------------------------------------------------------------
  // Whole runs
  // ---------------------------------------------------------------------------

  /** A run in its three phases, with what the first two of them led to. */
  datatype Trace = Trace(opening: seq<Event>, start: Opened, transfer: seq<Event>, inner: Result<Uploaded, Error>, ending: seq<Event>)

  function Log(t: Trace): seq<Event> {
    t.opening + t.transfer + t.ending
  }

  /** A whole run, whatever the server answers and whenever a cancel is seen. */
  ghost predicate Run(t: Trace, setting: Setting, r: Result<Uploaded, Error>) {
    && |setting.source| < TWO_64
    && OpeningRun(t.opening, setting, t.start)
    && match t.start
       case Ended(outcome) => t.transfer == [] && t.ending == [] && r == outcome
       case Ready(grid) =>
         && TransferRun(t.transfer, setting.source, grid, KeyFor(grid, setting.idempotencyKey), setting.pollBudget, t.inner)
         && AbandonRun(t.ending, grid.sid, t.inner, r)
  }

  /** The session a run works on, once it has one. */
  function SessionOf(t: Trace, setting: Setting): Option<string> {
    if t.start.Ready? then Some(t.start.grid.sid) else setting.resume
  }
}
