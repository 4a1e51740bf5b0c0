/** What the parts of a run keep, whatever the server answers: where its chunks come from, how many there are, and what success takes. */
module UploadFacts {
  import opened Common
  import opened Chunks
  import opened UploadLog
  import opened UploadSpec

  // ---------------------------------------------------------------------------
  // What is kept
  // ---------------------------------------------------------------------------

  /** Every chunk sent goes to the session, and is the one read from the source for its index. */
  ghost predicate SendsChunks(events: seq<Event>, source: Bytes, grid: Grid) {
    forall k :: 0 <= k < |events| && events[k].Sent? && events[k].request.Put? ==> SendsChunk(events[k].request, source, grid)
  }

  predicate SendsChunk(request: Request, source: Bytes, grid: Grid)
    requires request.Put?
  {
    && request.sid == grid.sid
    && ReadChunk(source, request.index, grid.chunkBytes, grid.totalBytes) == Ok(request.chunk)
  }

  /** What a round of chunks keeps: every one listed, read from the source, and each at most three times per listing. */
  ghost predicate SendRound(events: seq<Event>, source: Bytes, grid: Grid, missing: seq<U32>, failure: Option<Error>) {
    && (forall k :: 0 <= k < |events| && events[k].Sent? ==> events[k].request.Put? && events[k].request.index in missing)
    && SendsChunks(events, source, grid)
    && failure != Some(NotCompleted)
    && (forall i :: Count(events, PutOf(i)) <= CHUNK_ATTEMPTS * multiset(missing)[i])
    && (failure.None? ==> forall i :: i in missing ==> IsAcknowledged(events, grid.sid, i))
    && (failure == Some(Cancelled) ==> EndsCancelled(events))
  }

  /** A successful complete of this session under this key. */
  predicate CompletedWith(e: Event, sid: string, key: string, body: Body) {
    e.Sent? && e.request == Complete(sid, key) && Success(e.reply) && e.reply.body == body
  }

  predicate CommitsTo(e: Event, attempt: string, uri: string) {
    e.Sent? && e.request == Poll(attempt) && Success(e.reply) && e.reply.body == Attempt("committed", Some(uri))
  }

  /** The URI comes from the session's own complete, or from the attempt that complete handed out. */
  ghost predicate Delivered(events: seq<Event>, sid: string, key: string, uri: string) {
    && events != []
    && var last := events[|events| - 1];
       || CompletedWith(last, sid, key, Finished(uri))
       || exists attempt :: CommitsTo(last, attempt, uri) && HandedOut(events, sid, key, attempt)
  }

  ghost predicate HandedOut(events: seq<Event>, sid: string, key: string, attempt: string) {
    exists j :: 0 <= j < |events| && CompletedWith(events[j], sid, key, Accepted(attempt))
  }

  /** Every index a status reply lists as missing is acknowledged after that reply. */
  ghost predicate Answered(events: seq<Event>, sid: string) {
    forall k, i: U32 :: 0 <= k < |events| && ListedIn(events[k], i) > 0 ==> IsAcknowledged(events[k..], sid, i)
  }

  predicate Allowed(request: Request, grid: Grid, key: string) {
    request.Put? || request.Poll? || request == Complete(grid.sid, key) || request == Status(grid.sid)
  }

  /** What the completion phase may send: this session's chunks, completes under one key, status reads and polls. */
  ghost predicate Ledger(events: seq<Event>, source: Bytes, grid: Grid, key: string, completes: nat, statuses: nat) {
    && (forall k :: 0 <= k < |events| && events[k].Sent? ==> Allowed(events[k].request, grid, key))
    && SendsChunks(events, source, grid)
    && Count(events, Completes) == completes && Count(events, Statuses) == statuses && Count(events, Abandons) == 0
    && (forall i :: Count(events, PutOf(i)) <= CHUNK_ATTEMPTS * Listed(events, i))
  }

  /** What a completion phase keeps: giving up means that every try was answered incomplete, and met by a status read. */
  ghost predicate CompleteKeeps(events: seq<Event>, source: Bytes, grid: Grid, key: string, tries: nat, r: Result<Uploaded, Error>,
                                completes: nat, statuses: nat) {
    && statuses <= completes <= tries && Ledger(events, source, grid, key, completes, statuses)
    && (r == Err(NotCompleted) ==> statuses == completes == tries)
    && (r.Ok? ==> Delivered(events, grid.sid, key, r.value.uri) && r.value.sid == Some(grid.sid) && Answered(events, grid.sid))
    && (r == Err(Cancelled) ==> EndsCancelled(events))
  }

  /** What the transfer of a session keeps. */
  ghost predicate TransferKeeps(events: seq<Event>, source: Bytes, grid: Grid, key: string, r: Result<Uploaded, Error>) {
    && (forall k :: 0 <= k < |events| && events[k].Sent? ==> Allowed(events[k].request, grid, key))
    && SendsChunks(events, source, grid)
    && Count(events, Completes) <= COMPLETE_RETRIES + 1 && Count(events, Statuses) <= COMPLETE_RETRIES + 1
    && (forall i :: Count(events, PutOf(i)) <= CHUNK_ATTEMPTS * (multiset(grid.missing)[i] + Listed(events, i)))
    && Climbs(events, AckedBytes(grid), grid.totalBytes)
    && (r.Ok? ==>
          && Delivered(events, grid.sid, key, r.value.uri) && r.value.sid == Some(grid.sid)
          && Answered(events, grid.sid) && forall i :: i in grid.missing ==> IsAcknowledged(events, grid.sid, i))
    && (r == Err(Cancelled) ==> EndsCancelled(events))
    && (r == Err(NotCompleted) ==> Count(events, Completes) == Count(events, Statuses) == 3)
  }

  // ---------------------------------------------------------------------------
  // Rounds of chunks
  // ---------------------------------------------------------------------------

  /** What the attempts at one chunk mean for a round. */
  lemma PutFacts(puts: seq<Event>, sid: string, index: U32, chunk: Bytes, failure: Option<Error>)
    requires PutRun(puts, sid, index, chunk, failure)
    ensures failure.None? ==> Acknowledges(puts[|puts| - 1], sid, index)
    ensures failure == Some(Cancelled) ==> EndsCancelled(puts)
    ensures failure != Some(NotCompleted)
  {
    hide Count;
  }

  lemma PutsClimb(puts: seq<Event>, sid: string, index: U32, chunk: Bytes, failure: Option<Error>, acked: nat)
    requires PutRun(puts, sid, index, chunk, failure)
    ensures Climbs(puts, acked, acked)
  {
    hide Count;
  }

  /** A cancel check or a progress report adds nothing to a round. */
  lemma RoundNote(events: seq<Event>, source: Bytes, grid: Grid, missing: seq<U32>, e: Event, failure: Option<Error>)
    requires SendRound(events, source, grid, missing, None) && !e.Sent?
    requires failure == None || (failure == Some(Cancelled) && e == Checked(true))
    ensures SendRound(events + [e], source, grid, missing, failure)
  {
    hide Count;
    hide IsAcknowledged;
    forall i
      ensures Count(events + [e], PutOf(i)) == Count(events, PutOf(i))
    {
      CountSnoc(events, PutOf(i));
    }
    forall i | i in missing
      ensures IsAcknowledged(events + [e], grid.sid, i)
    {
      AcknowledgedAppend(events, [e], grid.sid, i);
    }
  }

  lemma RoundGrows(events: seq<Event>, source: Bytes, grid: Grid, missing: seq<U32>, n: nat, puts: seq<Event>, chunk: Bytes,
                   failure: Option<Error>)
    requires n < |missing| && SendRound(events, source, grid, missing[..n], None)
    requires PutRun(puts, grid.sid, missing[n], chunk, failure)
    requires ReadChunk(source, missing[n], grid.chunkBytes, grid.totalBytes) == Ok(chunk)
    ensures SendRound(events + puts, source, grid, missing[..n + 1], failure)
  {
    hide Count;
    hide IsAcknowledged;
    hide ReadChunk;
    PutFacts(puts, grid.sid, missing[n], chunk, failure);
    assert missing[..n + 1] == missing[..n] + [missing[n]];
    forall i
      ensures Count(events + puts, PutOf(i)) <= CHUNK_ATTEMPTS * multiset(missing[..n + 1])[i]
    {
      CountAppend(events, puts, PutOf(i));
      if i != missing[n] {
        OtherPuts(puts, grid.sid, missing[n], chunk, i);
      }
    }
    if failure.None? {
      forall i | i in missing[..n + 1]
        ensures IsAcknowledged(events + puts, grid.sid, i)
      {
        if i == missing[n] {
          LastAcknowledges(puts, grid.sid, i);
        }
        AcknowledgedAppend(events, puts, grid.sid, i);
      }
    }
  }

  lemma {:induction false} OtherPuts(puts: seq<Event>, sid: string, index: U32, chunk: Bytes, other: U32)
    requires forall k :: 0 <= k < |puts| ==> puts[k].Checked? || (puts[k].Sent? && puts[k].request == Put(sid, index, chunk))
    requires other != index
    ensures Count(puts, PutOf(other)) == 0
  {
    if puts != [] {
      OtherPuts(puts[..|puts| - 1], sid, index, chunk, other);
    }
  }

  lemma EmptyRound(source: Bytes, grid: Grid)
    ensures SendRound([], source, grid, [], None)
  {
  }

  lemma NothingDue(source: Bytes, grid: Grid, missing: seq<U32>, e: Event, failure: Error)
    requires !e.Sent? && failure != NotCompleted && (failure == Cancelled ==> e == Checked(true))
    ensures SendRound([e], source, grid, missing, Some(failure))
  {
    hide Count;
    forall i
      ensures Count([e], PutOf(i)) == 0
    {
      CountOne(e, PutOf(i));
    }
  }

  /** One round after another, the second perhaps interrupted. */
  lemma RoundAppend(x: seq<Event>, y: seq<Event>, source: Bytes, grid: Grid, a: seq<U32>, b: seq<U32>, failure: Option<Error>)
    requires SendRound(x, source, grid, a, None) && SendRound(y, source, grid, b, failure)
    ensures SendRound(x + y, source, grid, a + b, failure)
  {
    hide Count;
    hide IsAcknowledged;
    hide SendsChunk;
    forall i
      ensures Count(x + y, PutOf(i)) <= CHUNK_ATTEMPTS * multiset(a + b)[i]
    {
      CountAppend(x, y, PutOf(i));
    }
    if failure.None? {
      forall i | i in a + b
        ensures IsAcknowledged(x + y, grid.sid, i)
      {
        AcknowledgedAppend(x, y, grid.sid, i);
      }
    }
  }

  /** A round interrupted at its first chunk is an interrupted round over all of them. */
  lemma RoundCut(events: seq<Event>, source: Bytes, grid: Grid, missing: seq<U32>, failure: Option<Error>)
    requires missing != [] && SendRound(events, source, grid, [missing[0]], failure) && failure.Some?
    ensures SendRound(events, source, grid, missing, failure)
  {
    hide Count;
    assert missing == [missing[0]] + missing[1..];
    assert multiset(missing) == multiset([missing[0]]) + multiset(missing[1..]);
  }

  /** The cancel check before a chunk, and its attempts. */
  lemma OneChunk(puts: seq<Event>, source: Bytes, grid: Grid, index: U32, chunk: Bytes, failure: Option<Error>)
    requires PutRun(puts, grid.sid, index, chunk, failure)
    requires ReadChunk(source, index, grid.chunkBytes, grid.totalBytes) == Ok(chunk)
    ensures SendRound([Checked(false)] + puts, source, grid, [index], failure)
  {
    hide SendRound;
    hide PutRun;
    hide ReadChunk;
    EmptyRound(source, grid);
    RoundNote([], source, grid, [], Checked(false), None);
    assert [] + [Checked(false)] == [Checked(false)];
    assert [index][..0] == [] && [index][..1] == [index];
    RoundGrows([Checked(false)], source, grid, [index], 0, puts, chunk, failure);
  }

  lemma ReachedWithin(grid: Grid, index: U32, acked: nat)
    requires acked <= grid.totalBytes
    ensures acked <= Reached(grid, index, acked) <= grid.totalBytes
  {
  }

  lemma {:induction false} SendFacts(events: seq<Event>, source: Bytes, grid: Grid, missing: seq<U32>, acked: nat, acked': nat,
                                     failure: Option<Error>)
    requires SendRun(events, source, grid, missing, acked, acked', failure) && acked <= grid.totalBytes
    ensures SendRound(events, source, grid, missing, failure)
    ensures Climbs(events, acked, acked') && acked' <= grid.totalBytes
    decreases |missing|
  {
    hide SendRound;
    hide PutRun;
    hide ReadChunk;
    hide Climbs;
    hide Reached;
    EmptyClimb(acked);
    if missing == [] {
      EmptyRound(source, grid);
    } else if events[0].cancelled || ReadChunk(source, missing[0], grid.chunkBytes, grid.totalBytes).Err? {
      assert events == [events[0]];
      NothingDue(source, grid, missing, events[0], failure.value);
      ClimbsNote([], acked, acked, events[0]);
      assert [] + [events[0]] == events;
    } else {
      var chunk := ReadChunk(source, missing[0], grid.chunkBytes, grid.totalBytes).value;
      var n, f: Option<Error> :| 1 <= n <= |events| && ChunkRun(events, n, f, chunk, source, grid, missing, acked, acked', failure);
      ChunkFacts(events, n, f, chunk, source, grid, missing, acked, acked', failure);
    }
  }

  lemma {:induction false} ChunkFacts(events: seq<Event>, n: nat, f: Option<Error>, chunk: Bytes, source: Bytes, grid: Grid,
                                      missing: seq<U32>, acked: nat, acked': nat, failure: Option<Error>)
    requires 1 <= n <= |events| && missing != [] && events[0] == Checked(false) && acked <= grid.totalBytes
    requires ReadChunk(source, missing[0], grid.chunkBytes, grid.totalBytes) == Ok(chunk)
    requires ChunkRun(events, n, f, chunk, source, grid, missing, acked, acked', failure)
    ensures SendRound(events, source, grid, missing, failure)
    ensures Climbs(events, acked, acked') && acked' <= grid.totalBytes
    decreases |missing|, 0
  {
    hide SendRound;
    hide SendRun;
    hide PutRun;
    hide ReadChunk;
    hide Climbs;
    hide Reached;
    var puts, index := events[1..n], missing[0];
    var one := [Checked(false)] + puts;
    OneChunk(puts, source, grid, index, chunk, f);
    EmptyClimb(acked);
    ClimbsNote([], acked, acked, Checked(false));
    assert [] + [Checked(false)] == [Checked(false)];
    PutsClimb(puts, grid.sid, index, chunk, f, acked);
    ClimbsAppend([Checked(false)], puts, acked, acked, acked);
    if f.Some? {
      assert events == one;
      RoundCut(one, source, grid, missing, f);
    } else {
      var progress, reached, rest := events[n], Reached(grid, index, acked), events[n + 1..];
      ReachedWithin(grid, index, acked);
      RoundNote(one, source, grid, [index], progress, None);
      ClimbsUp(one, acked, acked, reached, progress);
      SendFacts(rest, source, grid, missing[1..], reached, acked', failure);
      RoundAppend(one + [progress], rest, source, grid, [index], missing[1..], failure);
      ClimbsAppend(one + [progress], rest, acked, reached, acked');
      assert missing == [index] + missing[1..];
      ThreeParts(events, n);
    }
  }

  lemma ThreeParts(events: seq<Event>, n: nat)
    requires 1 <= n < |events|
    ensures [events[0]] + events[1..n] + [events[n]] + events[n + 1..] == events
  {
  }

  // ---------------------------------------------------------------------------
  // Completing
  // ---------------------------------------------------------------------------

  lemma EmptyLedger(source: Bytes, grid: Grid, key: string)
    ensures Ledger([], source, grid, key, 0, 0)
  {
  }

  lemma {:induction false} LedgerAppend(x: seq<Event>, y: seq<Event>, source: Bytes, grid: Grid, key: string,
                                        c: nat, s: nat, c': nat, s': nat)
    requires Ledger(x, source, grid, key, c, s) && Ledger(y, source, grid, key, c', s')
    ensures Ledger(x + y, source, grid, key, c + c', s + s')
  {
    hide Count;
    hide Listed;
    hide SendsChunk;
    CountAppend(x, y, Completes);
    CountAppend(x, y, Statuses);
    CountAppend(x, y, Abandons);
    forall i
      ensures Count(x + y, PutOf(i)) <= CHUNK_ATTEMPTS * Listed(x + y, i)
    {
      CountAppend(x, y, PutOf(i));
      ListedAppend(x, y, i);
    }
  }

  /** One event that is no chunk and no abandon. */
  lemma LedgerOne(e: Event, source: Bytes, grid: Grid, key: string)
    requires e.Sent? ==> !e.request.Put? && Allowed(e.request, grid, key)
    ensures Ledger([e], source, grid, key, if e.Sent? && e.request.Complete? then 1 else 0, if e.Sent? && e.request.Status? then 1 else 0)
  {
    hide Listed;
    CountOne(e, Completes);
    CountOne(e, Statuses);
    CountOne(e, Abandons);
    forall i
      ensures Count([e], PutOf(i)) == 0
    {
      CountOne(e, PutOf(i));
    }
  }

  lemma {:induction false} PollsLedger(polls: seq<Event>, attempt: string, source: Bytes, grid: Grid, key: string)
    requires OnlyPolls(polls, attempt)
    ensures Ledger(polls, source, grid, key, 0, 0)
  {
    hide Ledger;
    if polls == [] {
      EmptyLedger(source, grid, key);
    } else {
      var n := |polls| - 1;
      PollsLedger(polls[..n], attempt, source, grid, key);
      LedgerOne(polls[n], source, grid, key);
      LedgerAppend(polls[..n], [polls[n]], source, grid, key, 0, 0, 0, 0);
      assert polls == polls[..n] + [polls[n]];
    }
  }

  lemma LedgerPolls(events: seq<Event>, source: Bytes, grid: Grid, key: string, c: nat, s: nat, polls: seq<Event>)
    requires Ledger(events, source, grid, key, c, s)
    requires polls == [] || exists attempt :: OnlyPolls(polls, attempt)
    ensures Ledger(events + polls, source, grid, key, c, s)
  {
    hide Ledger;
    if polls == [] {
      assert events + polls == events;
    } else {
      var attempt :| OnlyPolls(polls, attempt);
      PollsLedger(polls, attempt, source, grid, key);
      LedgerAppend(events, polls, source, grid, key, c, s, 0, 0);
    }
  }

  lemma PollsClimb(polls: seq<Event>, acked: nat)
    requires polls == [] || exists attempt :: OnlyPolls(polls, attempt)
    ensures Climbs(polls, acked, acked)
  {
  }

  /** What a successful complete leads to delivers its URI, and ends with a cancel if it is cancelled. */
  lemma CompletedDelivers(events: seq<Event>, completed: Event, polls: seq<Event>, sid: string, key: string, budget: nat,
                          r: Result<Uploaded, Error>)
    requires completed.Sent? && completed.reply.Response? && CompletedWith(completed, sid, key, completed.reply.body)
    requires CompletedRun(polls, sid, completed.reply.body, budget, r)
    ensures r.Ok? ==> Delivered(events + [completed] + polls, sid, key, r.value.uri) && r.value.sid == Some(sid)
    ensures r == Err(Cancelled) ==> EndsCancelled(events + [completed] + polls)
    ensures r != Err(NotCompleted)
  {
    hide Count;
    var all := events + [completed] + polls;
    match completed.reply.body {
      case Accepted(attempt) =>
        assert all[|events|] == completed;
        assert all[|all| - 1] == polls[|polls| - 1];
        if r.Ok? {
          assert HandedOut(all, sid, key, attempt);
          assert CommitsTo(all[|all| - 1], attempt, r.value.uri);
        }
      case _ =>
        assert all[|all| - 1] == completed;
    }
  }

  lemma CompletedPolls(polls: seq<Event>, sid: string, body: Body, budget: nat, r: Result<Uploaded, Error>)
    requires CompletedRun(polls, sid, body, budget, r)
    ensures polls == [] || exists attempt :: OnlyPolls(polls, attempt)
  {
    hide Count;
  }

  /** A status read and the round of chunks it asks for. */
  lemma StatusLedger(source: Bytes, grid: Grid, key: string, read: Event, sends: seq<Event>, missing: seq<U32>,
                     failure: Option<Error>)
    requires read.Sent? && read.request == Status(grid.sid) && Success(read.reply)
    requires SendRound(sends, source, grid, missing, failure)
    requires read.reply.body.SessionStatus? && read.reply.body.session.missing == missing
    ensures Ledger([read] + sends, source, grid, key, 0, 1)
  {
    hide Count;
    hide Listed;
    hide IsAcknowledged;
    hide SendsChunk;
    var all := [read] + sends;
    CountAppend([read], sends, Completes);
    CountAppend([read], sends, Statuses);
    CountAppend([read], sends, Abandons);
    CountOne(read, Completes);
    CountOne(read, Statuses);
    CountOne(read, Abandons);
    NotCounted(sends, Completes);
    NotCounted(sends, Statuses);
    NotCounted(sends, Abandons);
    forall i
      ensures Count(all, PutOf(i)) <= CHUNK_ATTEMPTS * Listed(all, i)
    {
      CountAppend([read], sends, PutOf(i));
      CountOne(read, PutOf(i));
      ListedAppend([read], sends, i);
      ListedOne(read, i);
    }
  }

  lemma AnsweredAppend(x: seq<Event>, y: seq<Event>, sid: string)
    requires Answered(x, sid) && Answered(y, sid)
    ensures Answered(x + y, sid)
  {
    hide IsAcknowledged;
    hide ListedIn;
    forall k, i: U32 | 0 <= k < |x + y| && ListedIn((x + y)[k], i) > 0
      ensures IsAcknowledged((x + y)[k..], sid, i)
    {
      if k < |x| {
        assert (x + y)[k..] == x[k..] + y;
        AcknowledgedAppend(x[k..], y, sid, i);
      } else {
        assert (x + y)[k..] == y[k - |x|..];
      }
    }
  }

  lemma NothingListed(events: seq<Event>, sid: string)
    requires forall k :: 0 <= k < |events| && events[k].Sent? ==> !events[k].request.Status?
    ensures Answered(events, sid)
  {
    hide IsAcknowledged;
  }

  lemma PollsListNothing(polls: seq<Event>, sid: string)
    requires polls == [] || exists attempt :: OnlyPolls(polls, attempt)
    ensures Answered(polls, sid)
  {
    NothingListed(polls, sid);
  }

  /** A status read is answered by a round that acknowledges what it lists. */
  lemma RoundAnswers(source: Bytes, grid: Grid, read: Event, sends: seq<Event>, missing: seq<U32>)
    requires read.Sent? && read.request.Status? && Success(read.reply)
    requires read.reply.body.SessionStatus? && read.reply.body.session.missing == missing
    requires SendRound(sends, source, grid, missing, None)
    ensures Answered([read] + sends, grid.sid)
  {
    hide Count;
    hide IsAcknowledged;
    var all := [read] + sends;
    forall k, i: U32 | 0 <= k < |all| && ListedIn(all[k], i) > 0
      ensures IsAcknowledged(all[k..], grid.sid, i)
    {
      if k == 0 {
        assert i in missing;
        assert all[0..] == all;
        AcknowledgedAppend([read], sends, grid.sid, i);
      }
    }
  }

  lemma RoundEnds(sends: seq<Event>, source: Bytes, grid: Grid, missing: seq<U32>, failure: Option<Error>, all: seq<Event>)
    requires SendRound(sends, source, grid, missing, failure)
    requires |all| >= |sends| && all[|all| - |sends|..] == sends
    ensures failure == Some(Cancelled) ==> EndsCancelled(all)
    ensures failure != Some(NotCompleted)
  {
    hide Count;
    hide IsAcknowledged;
  }

  /** What a completion phase keeps, and where its progress ends. */
  lemma {:induction false} CompleteFacts(events: seq<Event>, source: Bytes, grid: Grid, key: string, tries: nat, acked: nat, budget: nat,
                                         r: Result<Uploaded, Error>) returns (completes: nat, statuses: nat, end: nat)
    requires CompleteRun(events, source, grid, key, tries, acked, budget, r) && acked <= grid.totalBytes
    ensures CompleteKeeps(events, source, grid, key, tries, r, completes, statuses)
    ensures Climbs(events, acked, end) && end <= grid.totalBytes
    decreases tries, 0
  {
    hide Ledger;
    hide Climbs;
    hide Answered;
    hide Delivered;
    hide CompletedRun;
    hide ResumeRun;
    hide IsIncomplete;
    hide OnlyPolls;
    completes, statuses, end := 0, 0, acked;
    EmptyClimb(acked);
    if tries == 0 {
      EmptyLedger(source, grid, key);
    } else if events[0].cancelled {
      assert events == [Checked(true)];
      LedgerOne(events[0], source, grid, key);
      ClimbsNote([], acked, acked, events[0]);
      assert [] + [events[0]] == events;
    } else {
      var head, tail := [events[0]] + [events[1]], events[2..];
      completes := 1;
      HeadKept(events[0], events[1], source, grid, key, acked);
      assert events == head + tail;
      var reply := events[1].reply;
      if reply.Response? && Success(reply) {
        CompletedPolls(tail, grid.sid, reply.body, budget, r);
        LedgerPolls(head, source, grid, key, 1, 0, tail);
        PollsClimb(tail, acked);
        ClimbsAppend(head, tail, acked, acked, acked);
        PollsListNothing(tail, grid.sid);
        AnsweredAppend(head, tail, grid.sid);
        CompletedDelivers([events[0]], events[1], tail, grid.sid, key, budget, r);
      } else if reply.Response? && IsIncomplete(HttpError(reply)) {
        var c, s;
        c, s, end := ResumeFacts(tail, source, grid, key, tries - 1, acked, budget, r);
        completes, statuses := 1 + c, s;
        HeadThen(head, tail, source, grid, key, tries, r, c, s);
        ClimbsAppend(head, tail, acked, acked, end);
      } else {
        assert events == head;
      }
    }
  }

  lemma HeadKept(check: Event, complete: Event, source: Bytes, grid: Grid, key: string, acked: nat)
    requires check == Checked(false) && complete.Sent? && complete.request == Complete(grid.sid, key)
    ensures var head := [check] + [complete];
      Ledger(head, source, grid, key, 1, 0) && Answered(head, grid.sid) && Climbs(head, acked, acked)
  {
    hide Ledger;
    hide Answered;
    LedgerOne(check, source, grid, key);
    LedgerOne(complete, source, grid, key);
    LedgerAppend([check], [complete], source, grid, key, 0, 0, 1, 0);
    NothingListed([check] + [complete], grid.sid);
  }

  /** What is kept after an incomplete answer. */
  ghost predicate ResumeKeeps(events: seq<Event>, source: Bytes, grid: Grid, key: string, tries: nat, r: Result<Uploaded, Error>,
                              completes: nat, statuses: nat) {
    && 1 <= statuses <= completes + 1 && completes <= tries && Ledger(events, source, grid, key, completes, statuses)
    && (r == Err(NotCompleted) ==> completes == tries && statuses == tries + 1)
    && (r.Ok? ==> Delivered(events, grid.sid, key, r.value.uri) && r.value.sid == Some(grid.sid) && Answered(events, grid.sid))
    && (r == Err(Cancelled) ==> EndsCancelled(events))
  }

  lemma HeadThen(head: seq<Event>, tail: seq<Event>, source: Bytes, grid: Grid, key: string, tries: nat, r: Result<Uploaded, Error>,
                 c: nat, s: nat)
    requires tries > 0 && Ledger(head, source, grid, key, 1, 0) && Answered(head, grid.sid)
    requires ResumeKeeps(tail, source, grid, key, tries - 1, r, c, s)
    ensures CompleteKeeps(head + tail, source, grid, key, tries, r, 1 + c, s)
  {
    hide Ledger;
    hide Answered;
    hide Delivered;
    hide EndsCancelled;
    LedgerAppend(head, tail, source, grid, key, 1, 0, c, s);
    EndsAppend(head, tail);
    if r.Ok? {
      AnsweredAppend(head, tail, grid.sid);
      DeliveredLater(head, tail, grid.sid, key, r.value.uri);
    }
  }

  lemma {:induction false} ResumeFacts(events: seq<Event>, source: Bytes, grid: Grid, key: string, tries: nat, acked: nat, budget: nat,
                                       r: Result<Uploaded, Error>) returns (completes: nat, statuses: nat, end: nat)
    requires ResumeRun(events, source, grid, key, tries, acked, budget, r) && acked <= grid.totalBytes
    ensures ResumeKeeps(events, source, grid, key, tries, r, completes, statuses)
    ensures Climbs(events, acked, end) && end <= grid.totalBytes
    decreases tries, 2
  {
    hide Ledger;
    hide Climbs;
    hide Answered;
    hide Delivered;
    hide RoundThen;
    completes, statuses, end := 0, 1, acked;
    var read := events[0];
    LedgerOne(read, source, grid, key);
    EmptyClimb(acked);
    ClimbsNote([], acked, acked, read);
    assert [] + [read] == [read];
    if ParseStatus(read.reply).Err? {
      assert events == [read];
      assert r.Err?;
    } else {
      var missing := ParseStatus(read.reply).value.missing;
      var m, acked', f: Option<Error> :| 1 <= m <= |events| && RoundThen(events, m, acked', f, missing, source, grid, key, tries, acked, budget, r);
      completes, statuses, end := RoundFacts(events, m, acked', f, missing, source, grid, key, tries, acked, budget, r);
    }
  }

  lemma {:induction false} RoundFacts(events: seq<Event>, m: nat, acked': nat, f: Option<Error>, missing: seq<U32>, source: Bytes,
                                      grid: Grid, key: string, tries: nat, acked: nat, budget: nat, r: Result<Uploaded, Error>)
    returns (completes: nat, statuses: nat, end: nat)
    requires 1 <= m <= |events| && acked <= grid.totalBytes
    requires events[0].Sent? && events[0].request == Status(grid.sid)
    requires ParseStatus(events[0].reply).Ok? && ParseStatus(events[0].reply).value.missing == missing
    requires RoundThen(events, m, acked', f, missing, source, grid, key, tries, acked, budget, r)
    ensures ResumeKeeps(events, source, grid, key, tries, r, completes, statuses)
    ensures Climbs(events, acked, end) && end <= grid.totalBytes
    decreases tries, 1
  {
    hide Ledger;
    hide Climbs;
    hide Answered;
    hide Delivered;
    hide SendRun;
    hide SendRound;
    hide CompleteRun;
    hide EndsCancelled;
    var read, sends, rest := events[0], events[1..m], events[m..];
    SendFacts(sends, source, grid, missing, acked, acked', f);
    StatusLedger(source, grid, key, read, sends, missing, f);
    RoundEnds(sends, source, grid, missing, f, [read] + sends);
    EmptyClimb(acked);
    ClimbsNote([], acked, acked, read);
    assert [] + [read] == [read];
    ClimbsAppend([read], sends, acked, acked, acked');
    if f.Some? {
      assert events == [read] + sends;
      completes, statuses, end := 0, 1, acked';
    } else {
      RoundAnswers(source, grid, read, sends, missing);
      var c, s;
      c, s, end := CompleteFacts(rest, source, grid, key, tries, acked', budget, r);
      completes, statuses := c, 1 + s;
      assert events == ([read] + sends) + rest;
      LedgerAppend([read] + sends, rest, source, grid, key, 0, 1, c, s);
      ClimbsAppend([read] + sends, rest, acked, acked', end);
      EndsAppend([read] + sends, rest);
      if r.Ok? {
        AnsweredAppend([read] + sends, rest, grid.sid);
        DeliveredLater([read] + sends, rest, grid.sid, key, r.value.uri);
      }
    }
  }

  // ---------------------------------------------------------------------------
  // Transferring
  // ---------------------------------------------------------------------------

  lemma TransferStops(events: seq<Event>, source: Bytes, grid: Grid, key: string, acked: nat, failure: Option<Error>)
    requires SendRound(events, source, grid, grid.missing, failure) && failure.Some?
    requires Climbs(events, AckedBytes(grid), acked) && acked <= grid.totalBytes
    ensures TransferKeeps(events, source, grid, key, Err(failure.value))
  {
    hide Count;
    hide Listed;
    hide IsAcknowledged;
    hide SendsChunk;
    hide AckedBytes;
    NotCounted(events, Completes);
    NotCounted(events, Statuses);
  }

  lemma TransferEnds(sends: seq<Event>, completes: seq<Event>, source: Bytes, grid: Grid, key: string, acked: nat, end: nat,
                     r: Result<Uploaded, Error>, c: nat, s: nat)
    requires SendRound(sends, source, grid, grid.missing, None)
    requires CompleteKeeps(completes, source, grid, key, COMPLETE_RETRIES + 1, r, c, s)
    requires Climbs(sends, AckedBytes(grid), acked) && Climbs(completes, acked, end) && end <= grid.totalBytes
    ensures TransferKeeps(sends + completes, source, grid, key, r)
  {
    hide Count;
    hide Listed;
    hide IsAcknowledged;
    hide SendsChunk;
    hide AckedBytes;
    hide Climbs;
    hide Answered;
    hide Delivered;
    var all := sends + completes;
    NotCounted(sends, Completes);
    NotCounted(sends, Statuses);
    CountAppend(sends, completes, Completes);
    CountAppend(sends, completes, Statuses);
    ClimbsAppend(sends, completes, AckedBytes(grid), acked, end);
    ClimbsHigher(all, AckedBytes(grid), end, grid.totalBytes);
    NothingListed(sends, grid.sid);
    if r.Ok? {
      AnsweredAppend(sends, completes, grid.sid);
      DeliveredLater(sends, completes, grid.sid, key, r.value.uri);
    }
    forall i
      ensures Count(all, PutOf(i)) <= CHUNK_ATTEMPTS * (multiset(grid.missing)[i] + Listed(all, i))
    {
      CountAppend(sends, completes, PutOf(i));
      ListedAppend(sends, completes, i);
    }
    forall i | i in grid.missing
      ensures IsAcknowledged(all, grid.sid, i)
    {
      AcknowledgedAppend(sends, completes, grid.sid, i);
    }
  }

  lemma DeliveredLater(x: seq<Event>, y: seq<Event>, sid: string, key: string, uri: string)
    requires Delivered(y, sid, key, uri)
    ensures Delivered(x + y, sid, key, uri)
  {
    var last := y[|y| - 1];
    assert (x + y)[|x + y| - 1] == last;
    if !CompletedWith(last, sid, key, Finished(uri)) {
      var attempt :| CommitsTo(last, attempt, uri) && HandedOut(y, sid, key, attempt);
      var j :| 0 <= j < |y| && CompletedWith(y[j], sid, key, Accepted(attempt));
      assert (x + y)[|x| + j] == y[j];
      assert HandedOut(x + y, sid, key, attempt);
    }
  }

  lemma TransferFacts(events: seq<Event>, source: Bytes, grid: Grid, key: string, budget: nat, r: Result<Uploaded, Error>)
    requires TransferRun(events, source, grid, key, budget, r)
    ensures TransferKeeps(events, source, grid, key, r)
  {
    hide SendRound;
    hide SendRun;
    hide CompleteRun;
    hide Climbs;
    hide TransferKeeps;
    hide CompleteKeeps;
    hide AckedBytes;
    var n, acked, f: Option<Error> :| 0 <= n <= |events| && TransferAt(events, n, acked, f, source, grid, key, budget, r);
    var sends, completes := events[..n], events[n..];
    assert events == sends + completes;
    SendFacts(sends, source, grid, grid.missing, AckedBytes(grid), acked, f);
    if f.Some? {
      assert events == sends;
      TransferStops(events, source, grid, key, acked, f);
    } else {
      var c, s, end := CompleteFacts(completes, source, grid, key, COMPLETE_RETRIES + 1, acked, budget, r);
      TransferEnds(sends, completes, source, grid, key, acked, end, r, c, s);
    }
  }
}
