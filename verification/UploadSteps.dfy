/** How the client's loops follow the specified runs: one event, one chunk, one try at a time. */
module UploadSteps {
  import opened Common
  import opened Chunks
  import opened UploadLog
  import opened UploadSpec

  // ---------------------------------------------------------------------------
  // Attempts and polls
  // ---------------------------------------------------------------------------

  /** Attempts so far: checked before each, and every one a transient failure of the same request. */
  ghost predicate PutTries(events: seq<Event>, request: Request) {
    && (forall k :: 0 <= k < |events| && events[k].Sent? ==> k > 0 && events[k - 1] == Checked(false))
    && (forall k :: 0 <= k < |events| ==>
          events[k] == Checked(false) || (events[k].Sent? && events[k].request == request && Transient(events[k].reply)))
  }

  lemma NoTries(request: Request)
    ensures PutTries([], request)
  {
  }

  lemma PutCancelled(tries: seq<Event>, sid: string, index: U32, chunk: Bytes)
    requires PutTries(tries, Put(sid, index, chunk)) && Count(tries, PutOf(index)) < CHUNK_ATTEMPTS
    ensures PutRun(tries + [Checked(true)], sid, index, chunk, Some(Cancelled))
  {
    hide Count;
    CountSnoc(tries, PutOf(index));
  }

  /** One more attempt: the last one, unless it fails transiently with attempts left. */
  lemma PutTried(tries: seq<Event>, sid: string, index: U32, chunk: Bytes, reply: Reply)
    requires PutTries(tries, Put(sid, index, chunk)) && Count(tries, PutOf(index)) < CHUNK_ATTEMPTS
    ensures var events := tries + [Checked(false), Sent(Put(sid, index, chunk), reply)];
      && Count(events, PutOf(index)) == Count(tries, PutOf(index)) + 1
      && (Transient(reply) ==> PutTries(events, Put(sid, index, chunk)))
      && (!Transient(reply) || Count(events, PutOf(index)) == CHUNK_ATTEMPTS ==>
            PutRun(events, sid, index, chunk, PutVerdict(Sent(Put(sid, index, chunk), reply))))
  {
    hide Count;
    var put := Sent(Put(sid, index, chunk), reply);
    CountSnoc(tries, PutOf(index));
    CountSnoc(tries + [Checked(false)], PutOf(index));
    assert tries + [Checked(false), put] == tries + [Checked(false)] + [put];
  }

  /** Polls so far: checked before each, and every one pending. */
  ghost predicate PollTries(events: seq<Event>, attempt: string) {
    && (forall k :: 0 <= k < |events| && events[k].Sent? ==> k > 0 && events[k - 1] == Checked(false))
    && (forall k :: 0 <= k < |events| ==>
          events[k] == Checked(false) || (events[k].Sent? && events[k].request == Poll(attempt) && IsPending(events[k].reply)))
  }

  lemma NoPolls(attempt: string)
    ensures PollTries([], attempt)
  {
  }

  lemma PollWaited(tries: seq<Event>, attempt: string)
    requires PollTries(tries, attempt)
    ensures PollTries(tries + [Checked(false)], attempt)
    ensures Count(tries + [Checked(false)], Polls) == Count(tries, Polls)
  {
    hide Count;
    CountSnoc(tries, Polls);
  }

  lemma PollCancelled(tries: seq<Event>, sid: string, attempt: string, budget: nat)
    requires PollTries(tries, attempt) && Count(tries, Polls) <= budget + 1
    ensures PollRun(tries + [Checked(true)], sid, attempt, budget, Err(Cancelled))
  {
    hide Count;
    CountSnoc(tries, Polls);
  }

  /** One more poll: the last one, unless it is pending with budget left. */
  lemma PollTried(tries: seq<Event>, sid: string, attempt: string, budget: nat, reply: Reply)
    requires PollTries(tries, attempt) && Count(tries, Polls) <= budget
    ensures var events := tries + [Checked(false), Sent(Poll(attempt), reply)];
      && Count(events, Polls) == Count(tries, Polls) + 1
      && (IsPending(reply) ==> PollTries(events, attempt))
      && (!IsPending(reply) || Count(events, Polls) == budget + 1 ==>
            PollRun(events, sid, attempt, budget, PollVerdict(Sent(Poll(attempt), reply), sid)))
  {
    hide Count;
    var poll := Sent(Poll(attempt), reply);
    CountSnoc(tries, Polls);
    CountSnoc(tries + [Checked(false)], Polls);
    assert tries + [Checked(false), poll] == tries + [Checked(false)] + [poll];
  }

  // ---------------------------------------------------------------------------
  // Rounds of chunks
  // ---------------------------------------------------------------------------

  /** Whatever finishes the round over `rest` finishes, after these events, the round over `whole`. */
  ghost predicate SendContinues(events: seq<Event>, source: Bytes, grid: Grid, whole: seq<U32>, rest: seq<U32>, acked: nat, mid: nat) {
    forall tail, acked', failure :: SendRun(tail, source, grid, rest, mid, acked', failure)
      ==> SendRun(events + tail, source, grid, whole, acked, acked', failure)
  }

  lemma SendStarts(source: Bytes, grid: Grid, missing: seq<U32>, acked: nat)
    ensures SendContinues([], source, grid, missing, missing, acked, acked)
  {
    hide SendRun;
    forall tail, acked', failure | SendRun(tail, source, grid, missing, acked, acked', failure)
      ensures SendRun([] + tail, source, grid, missing, acked, acked', failure)
    {
      assert [] + tail == tail;
    }
  }

  lemma SendNothing(source: Bytes, grid: Grid, acked: nat)
    ensures SendRun([], source, grid, [], acked, acked, None)
  {
  }

  lemma SendCancelled(source: Bytes, grid: Grid, missing: seq<U32>, acked: nat)
    requires missing != []
    ensures SendRun([Checked(true)], source, grid, missing, acked, acked, Some(Cancelled))
  {
  }

  lemma SendTruncated(source: Bytes, grid: Grid, missing: seq<U32>, acked: nat, e: SourceTruncated)
    requires missing != [] && ReadChunk(source, missing[0], grid.chunkBytes, grid.totalBytes) == Err(e)
    ensures SendRun([Checked(false)], source, grid, missing, acked, acked, Some(Truncated(e)))
  {
  }

  lemma SendFails(source: Bytes, grid: Grid, missing: seq<U32>, acked: nat, chunk: Bytes, puts: seq<Event>, failure: Option<Error>)
    requires missing != [] && ReadChunk(source, missing[0], grid.chunkBytes, grid.totalBytes) == Ok(chunk)
    requires PutRun(puts, grid.sid, missing[0], chunk, failure) && failure.Some?
    ensures SendRun([Checked(false)] + puts, source, grid, missing, acked, acked, failure)
  {
    hide PutRun;
    hide ReadChunk;
    var events := [Checked(false)] + puts;
    assert events[1..|events|] == puts;
    assert ChunkRun(events, |events|, failure, chunk, source, grid, missing, acked, acked, failure);
  }

  lemma SendChunk(source: Bytes, grid: Grid, missing: seq<U32>, acked: nat, chunk: Bytes, puts: seq<Event>, progress: Event,
                  tail: seq<Event>, acked': nat, failure: Option<Error>)
    requires missing != [] && ReadChunk(source, missing[0], grid.chunkBytes, grid.totalBytes) == Ok(chunk)
    requires PutRun(puts, grid.sid, missing[0], chunk, None)
    requires progress == Progress(Reached(grid, missing[0], acked), grid.totalBytes, missing[0], grid.chunkCount)
    requires SendRun(tail, source, grid, missing[1..], Reached(grid, missing[0], acked), acked', failure)
    ensures SendRun([Checked(false)] + puts + [progress] + tail, source, grid, missing, acked, acked', failure)
  {
    hide PutRun;
    hide ReadChunk;
    hide Reached;
    var events, n := [Checked(false)] + puts + [progress] + tail, |puts| + 1;
    assert events[0] == Checked(false) && events[1..n] == puts && events[n] == progress && events[n + 1..] == tail;
    assert ChunkRun(events, n, None, chunk, source, grid, missing, acked, acked', failure) by {
      hide SendRun;
    }
  }

  lemma SendGoesOn(events: seq<Event>, source: Bytes, grid: Grid, whole: seq<U32>, rest: seq<U32>, acked: nat, mid: nat, chunk: Bytes,
                   puts: seq<Event>, progress: Event)
    requires SendContinues(events, source, grid, whole, rest, acked, mid)
    requires rest != [] && ReadChunk(source, rest[0], grid.chunkBytes, grid.totalBytes) == Ok(chunk)
    requires PutRun(puts, grid.sid, rest[0], chunk, None)
    requires progress == Progress(Reached(grid, rest[0], mid), grid.totalBytes, rest[0], grid.chunkCount)
    ensures SendContinues(events + [Checked(false)] + puts + [progress], source, grid, whole, rest[1..], acked, Reached(grid, rest[0], mid))
  {
    hide SendRun;
    hide PutRun;
    hide ReadChunk;
    hide Reached;
    var reached := Reached(grid, rest[0], mid);
    forall tail, acked', failure | SendRun(tail, source, grid, rest[1..], reached, acked', failure)
      ensures SendRun(events + [Checked(false)] + puts + [progress] + tail, source, grid, whole, acked, acked', failure)
    {
      SendChunk(source, grid, rest, mid, chunk, puts, progress, tail, acked', failure);
      assert events + [Checked(false)] + puts + [progress] + tail == events + ([Checked(false)] + puts + [progress] + tail);
    }
  }

  lemma SendEnds(events: seq<Event>, source: Bytes, grid: Grid, whole: seq<U32>, rest: seq<U32>, acked: nat, mid: nat, tail: seq<Event>,
                 acked': nat, failure: Option<Error>)
    requires SendContinues(events, source, grid, whole, rest, acked, mid) && SendRun(tail, source, grid, rest, mid, acked', failure)
    ensures SendRun(events + tail, source, grid, whole, acked, acked', failure)
  {
    hide SendRun;
  }

  // ---------------------------------------------------------------------------
  // Completing
  // ---------------------------------------------------------------------------

  /** Whatever finishes the phase with `left` tries finishes, after these events, the phase with `tries`. */
  ghost predicate CompleteContinues(events: seq<Event>, source: Bytes, grid: Grid, key: string, tries: nat, left: nat, acked: nat, mid: nat,
                                    budget: nat) {
    forall tail, r :: CompleteRun(tail, source, grid, key, left, mid, budget, r)
      ==> CompleteRun(events + tail, source, grid, key, tries, acked, budget, r)
  }

  lemma CompleteStarts(source: Bytes, grid: Grid, key: string, tries: nat, acked: nat, budget: nat)
    ensures CompleteContinues([], source, grid, key, tries, tries, acked, acked, budget)
  {
    hide CompleteRun;
    forall tail, r | CompleteRun(tail, source, grid, key, tries, acked, budget, r)
      ensures CompleteRun([] + tail, source, grid, key, tries, acked, budget, r)
    {
      assert [] + tail == tail;
    }
  }

  lemma CompleteEnds(events: seq<Event>, source: Bytes, grid: Grid, key: string, tries: nat, left: nat, acked: nat, mid: nat, budget: nat,
                     tail: seq<Event>, r: Result<Uploaded, Error>)
    requires CompleteContinues(events, source, grid, key, tries, left, acked, mid, budget)
    requires CompleteRun(tail, source, grid, key, left, mid, budget, r)
    ensures CompleteRun(events + tail, source, grid, key, tries, acked, budget, r)
  {
    hide CompleteRun;
  }

  lemma CompleteSpent(source: Bytes, grid: Grid, key: string, acked: nat, budget: nat)
    ensures CompleteRun([], source, grid, key, 0, acked, budget, Err(NotCompleted))
  {
  }

  lemma CompleteCancelled(source: Bytes, grid: Grid, key: string, tries: nat, acked: nat, budget: nat)
    requires tries > 0
    ensures CompleteRun([Checked(true)], source, grid, key, tries, acked, budget, Err(Cancelled))
  {
  }

  /** A complete that is not answered incomplete decides the phase. */
  lemma CompleteDecides(source: Bytes, grid: Grid, key: string, tries: nat, acked: nat, budget: nat, reply: Reply, polls: seq<Event>,
                        r: Result<Uploaded, Error>)
    requires tries > 0
    requires if reply.TransportError? then polls == [] && r == Err(Transport)
      else if Success(reply) then CompletedRun(polls, grid.sid, reply.body, budget, r)
      else polls == [] && !IsIncomplete(HttpError(reply)) && r == Err(HttpError(reply))
    ensures CompleteRun([Checked(false), Sent(Complete(grid.sid, key), reply)] + polls, source, grid, key, tries, acked, budget, r)
  {
    hide CompletedRun;
    var events := [Checked(false), Sent(Complete(grid.sid, key), reply)] + polls;
    assert events[2..] == polls;
  }

  lemma CompleteResumes(source: Bytes, grid: Grid, key: string, tries: nat, acked: nat, budget: nat, reply: Reply, resumed: seq<Event>,
                        r: Result<Uploaded, Error>)
    requires tries > 0 && reply.Response? && !Success(reply) && IsIncomplete(HttpError(reply))
    requires ResumeRun(resumed, source, grid, key, tries - 1, acked, budget, r)
    ensures CompleteRun([Checked(false), Sent(Complete(grid.sid, key), reply)] + resumed, source, grid, key, tries, acked, budget, r)
  {
    hide CompletedRun;
    hide ResumeRun;
    var events := [Checked(false), Sent(Complete(grid.sid, key), reply)] + resumed;
    assert events[2..] == resumed;
  }

  /** A failed answer to an incomplete upload: the status could not be read, or a chunk could not be sent. */
  ghost predicate ResumeFailed(events: seq<Event>, source: Bytes, grid: Grid, acked: nat, e: Error) {
    forall key, tries, budget :: ResumeRun(events, source, grid, key, tries, acked, budget, Err(e))
  }

  /** A round sent: whatever finishes the tries that are left finishes the answer. */
  ghost predicate ResumeContinues(events: seq<Event>, source: Bytes, grid: Grid, acked: nat, mid: nat) {
    forall key, tries, budget, tail, r :: CompleteRun(tail, source, grid, key, tries, mid, budget, r)
      ==> ResumeRun(events + tail, source, grid, key, tries, acked, budget, r)
  }

  lemma StatusFails(read: Event, source: Bytes, grid: Grid, acked: nat)
    requires read.Sent? && read.request == Status(grid.sid) && ParseStatus(read.reply).Err?
    ensures ResumeFailed([read], source, grid, acked, ParseStatus(read.reply).error)
  {
    hide RoundThen;
  }

  lemma RoundFails(read: Event, sends: seq<Event>, source: Bytes, grid: Grid, acked: nat, acked': nat, failure: Option<Error>)
    requires read.Sent? && read.request == Status(grid.sid) && ParseStatus(read.reply).Ok? && failure.Some?
    requires SendRun(sends, source, grid, ParseStatus(read.reply).value.missing, acked, acked', failure)
    ensures ResumeFailed([read] + sends, source, grid, acked, failure.value)
  {
    hide SendRun;
    hide CompleteRun;
    var events := [read] + sends;
    assert events[1..|events|] == sends;
    forall key, tries, budget
      ensures ResumeRun(events, source, grid, key, tries, acked, budget, Err(failure.value))
    {
      assert RoundThen(events, |events|, acked', failure, ParseStatus(read.reply).value.missing, source, grid, key, tries, acked, budget, Err(failure.value));
    }
  }

  lemma RoundGoesOn(read: Event, sends: seq<Event>, source: Bytes, grid: Grid, acked: nat, acked': nat)
    requires read.Sent? && read.request == Status(grid.sid) && ParseStatus(read.reply).Ok?
    requires SendRun(sends, source, grid, ParseStatus(read.reply).value.missing, acked, acked', None)
    ensures ResumeContinues([read] + sends, source, grid, acked, acked')
  {
    hide SendRun;
    hide CompleteRun;
    forall key, tries, budget, tail, r | CompleteRun(tail, source, grid, key, tries, acked', budget, r)
      ensures ResumeRun([read] + sends + tail, source, grid, key, tries, acked, budget, r)
    {
      var events, m := [read] + sends + tail, |sends| + 1;
      assert events[0] == read && events[1..m] == sends && events[m..] == tail;
      assert RoundThen(events, m, acked', None, ParseStatus(read.reply).value.missing, source, grid, key, tries, acked, budget, r);
    }
  }

  lemma CompleteGoesOn(events: seq<Event>, source: Bytes, grid: Grid, key: string, tries: nat, left: nat, acked: nat, mid: nat, budget: nat,
                       reply: Reply, round: seq<Event>, reached: nat)
    requires left > 0 && CompleteContinues(events, source, grid, key, tries, left, acked, mid, budget)
    requires reply.Response? && !Success(reply) && IsIncomplete(HttpError(reply))
    requires ResumeContinues(round, source, grid, mid, reached)
    ensures CompleteContinues(events + [Checked(false), Sent(Complete(grid.sid, key), reply)] + round, source, grid, key, tries, left - 1, acked, reached, budget)
  {
    hide CompleteRun;
    hide ResumeRun;
    hide IsIncomplete;
    var head := [Checked(false), Sent(Complete(grid.sid, key), reply)];
    forall tail, r | CompleteRun(tail, source, grid, key, left - 1, reached, budget, r)
      ensures CompleteRun(events + head + round + tail, source, grid, key, tries, acked, budget, r)
    {
      assert ResumeRun(round + tail, source, grid, key, left - 1, mid, budget, r);
      CompleteResumes(source, grid, key, left, mid, budget, reply, round + tail, r);
      assert events + head + round + tail == events + (head + (round + tail));
    }
  }

  // ---------------------------------------------------------------------------
  // Transferring
  // ---------------------------------------------------------------------------

  lemma TransferStops(events: seq<Event>, source: Bytes, grid: Grid, key: string, budget: nat, acked: nat, failure: Option<Error>)
    requires SendRun(events, source, grid, grid.missing, AckedBytes(grid), acked, failure) && failure.Some?
    ensures TransferRun(events, source, grid, key, budget, Err(failure.value))
  {
    hide SendRun;
    assert events[..|events|] == events;
    assert TransferAt(events, |events|, acked, failure, source, grid, key, budget, Err(failure.value));
  }

  lemma TransferEnds(sends: seq<Event>, completes: seq<Event>, source: Bytes, grid: Grid, key: string, budget: nat, acked: nat,
                     r: Result<Uploaded, Error>)
    requires SendRun(sends, source, grid, grid.missing, AckedBytes(grid), acked, None)
    requires CompleteRun(completes, source, grid, key, COMPLETE_RETRIES + 1, acked, budget, r)
    ensures TransferRun(sends + completes, source, grid, key, budget, r)
  {
    hide SendRun;
    hide CompleteRun;
    var events := sends + completes;
    assert events[..|sends|] == sends && events[|sends|..] == completes;
    assert TransferAt(events, |sends|, acked, None, source, grid, key, budget, r);
  }
}
