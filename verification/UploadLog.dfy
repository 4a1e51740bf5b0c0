/**
  The log of an upload: requests, replies, cancel checks and progress reports in order, and what is
  counted in it.
*/
module UploadLog {
  import opened Common
  import opened Chunks

  // ---------------------------------------------------------------------------
  // The wire
  // ---------------------------------------------------------------------------

  datatype Request =
    | Create(totalBytes: nat, digest: string, chunkBytes: U64)
    | Status(sid: string)
    | Put(sid: string, index: U32, chunk: Bytes)
    | Complete(sid: string, key: string)
    | Poll(attempt: string)
    | Abandon(sid: string)

  datatype Session = Session(
    sid: string, state: string, digest: string, totalBytes: U64, chunkBytes: U64, chunkCount: U32,
    missing: seq<U32>, attempt: Option<string>, uri: Option<string>)

  /** What a reply's body parses as. */
  datatype Body =
    | Unparsable
    | Acknowledged
    | Created(sid: string, chunkBytes: U64, chunkCount: U32, received: seq<U32>)
    | Deduplicated(uri: string)
    | SessionStatus(session: Session)
    | Finished(uri: string)
    | Accepted(attempt: string)
    | Attempt(state: string, committed: Option<string>)
    | Problem(code: string)

  datatype Reply = TransportError | Response(status: nat, body: Body)

  datatype Event =
    | Sent(request: Request, reply: Reply)
    | Checked(cancelled: bool)
    | Progress(sent: nat, total: nat, index: U32, chunks: U32)
    | Announced(sid: string)

  datatype Error =
    | Transport
    | Http(status: nat, code: Option<string>)
    | Truncated(source: SourceTruncated)
    | InsufficientFunds
    | NotCompleted
    | Failed
    | DecodeFailed
    | Protocol
    | Cancelled
    | AbandonFailed(sid: string, cause: Error)

  datatype Uploaded = Uploaded(uri: string, sid: Option<string>)

  predicate Success(reply: Reply) {
    reply.Response? && 200 <= reply.status < 300
  }

  function HttpError(reply: Reply): Error
    requires reply.Response?
  {
    Http(reply.status, match reply.body case Problem(code) => Some(code) case _ => None)
  }

  /** A client-side status that no retry can mend. */
  predicate TerminalStatus(status: nat) {
    400 <= status < 500 && status != 408 && status != 429
  }

  predicate IsIncomplete(e: Error) {
    e == Http(409, Some("incomplete-upload"))
  }

  predicate Gone(reply: Reply) {
    Success(reply) || (reply.Response? && reply.status in {404, 410})
  }

  // ---------------------------------------------------------------------------
  // Properties of event sequences
  // ---------------------------------------------------------------------------

  datatype Kind = PutOf(index: U32) | Completes | Statuses | Polls | Abandons

  predicate Matches(e: Event, kind: Kind) {
    e.Sent? &&
    match kind
    case PutOf(index) => e.request.Put? && e.request.index == index
    case Completes => e.request.Complete?
    case Statuses => e.request.Status?
    case Polls => e.request.Poll?
    case Abandons => e.request.Abandon?
  }

  function Count(events: seq<Event>, kind: Kind): nat {
    if events == [] then 0
    else Count(events[..|events| - 1], kind) + (if Matches(events[|events| - 1], kind) then 1 else 0)
  }

  lemma {:induction false} CountAppend(x: seq<Event>, y: seq<Event>, kind: Kind)
    ensures Count(x + y, kind) == Count(x, kind) + Count(y, kind)
  {
    hide Matches;
    if y == [] {
      assert x + y == x;
    } else {
      assert (x + y)[..|x + y| - 1] == x + y[..|y| - 1];
      CountAppend(x, y[..|y| - 1], kind);
    }
  }

  lemma CountOne(e: Event, kind: Kind)
    ensures Count([e], kind) == if Matches(e, kind) then 1 else 0
  {
    assert [e][..0] == [];
  }

  /** How often the status replies in `events` list an index as missing. */
  function Listed(events: seq<Event>, index: U32): nat {
    if events == [] then 0
    else Listed(events[..|events| - 1], index) + ListedIn(events[|events| - 1], index)
  }

  function ListedIn(e: Event, index: U32): nat {
    if e.Sent? && e.request.Status? && Success(e.reply) && e.reply.body.SessionStatus?
    then multiset(e.reply.body.session.missing)[index]
    else 0
  }

  lemma {:induction false} ListedAppend(x: seq<Event>, y: seq<Event>, index: U32)
    ensures Listed(x + y, index) == Listed(x, index) + Listed(y, index)
  {
    hide ListedIn;
    if y == [] {
      assert x + y == x;
    } else {
      assert (x + y)[..|x + y| - 1] == x + y[..|y| - 1];
      ListedAppend(x, y[..|y| - 1], index);
    }
  }

  /** Progress reports never fall, and stay between what was acknowledged before and after. */
  ghost predicate Climbs(events: seq<Event>, low: nat, high: nat) {
    && low <= high
    && (forall k :: 0 <= k < |events| && events[k].Progress? ==> low <= events[k].sent <= high)
    && (forall j, k :: 0 <= j < k < |events| && events[j].Progress? && events[k].Progress? ==> events[j].sent <= events[k].sent)
  }

  lemma ClimbsAppend(x: seq<Event>, y: seq<Event>, low: nat, middle: nat, high: nat)
    requires Climbs(x, low, middle) && Climbs(y, middle, high)
    ensures Climbs(x + y, low, high)
  {
  }

  /** Some event acknowledges the chunk of this index. */
  ghost predicate IsAcknowledged(events: seq<Event>, sid: string, index: U32) {
    exists k :: 0 <= k < |events| && Acknowledges(events[k], sid, index)
  }

  predicate Acknowledges(e: Event, sid: string, index: U32) {
    e.Sent? && e.request.Put? && e.request.sid == sid && e.request.index == index && Success(e.reply) && e.reply.body.Acknowledged?
  }

  lemma AcknowledgedAppend(x: seq<Event>, y: seq<Event>, sid: string, index: U32)
    requires IsAcknowledged(x, sid, index) || IsAcknowledged(y, sid, index)
    ensures IsAcknowledged(x + y, sid, index)
  {
    if IsAcknowledged(x, sid, index) {
      var k :| 0 <= k < |x| && Acknowledges(x[k], sid, index);
      assert (x + y)[k] == x[k];
    } else {
      var k :| 0 <= k < |y| && Acknowledges(y[k], sid, index);
      assert (x + y)[|x| + k] == y[k];
    }
  }

  predicate EndsCancelled(events: seq<Event>) {
    events != [] && events[|events| - 1] == Checked(true)
  }

  lemma {:induction false} NotCounted(sends: seq<Event>, kind: Kind)
    requires forall k :: 0 <= k < |sends| ==> !Matches(sends[k], kind)
    ensures Count(sends, kind) == 0
  {
    hide Matches;
    if sends != [] {
      NotCounted(sends[..|sends| - 1], kind);
    }
  }

  lemma EndsAppend(x: seq<Event>, y: seq<Event>)
    ensures EndsCancelled(y) ==> EndsCancelled(x + y)
  {
  }

  lemma ListedOne(e: Event, index: U32)
    ensures Listed([e], index) == ListedIn(e, index)
  {
    assert [e][..0] == [];
  }

  lemma EmptyClimb(acked: nat)
    ensures Climbs([], acked, acked)
  {
  }

  lemma ClimbsNote(events: seq<Event>, low: nat, high: nat, e: Event)
    requires Climbs(events, low, high) && !e.Progress?
    ensures Climbs(events + [e], low, high)
  {
  }

  lemma ClimbsUp(events: seq<Event>, low: nat, middle: nat, high: nat, e: Event)
    requires Climbs(events, low, middle) && middle <= high && e.Progress? && e.sent == high
    ensures Climbs(events + [e], low, high)
  {
  }

  lemma ClimbsHigher(events: seq<Event>, low: nat, high: nat, higher: nat)
    requires Climbs(events, low, high) && high <= higher
    ensures Climbs(events, low, higher)
  {
  }

  lemma LastAcknowledges(puts: seq<Event>, sid: string, index: U32)
    requires puts != [] && Acknowledges(puts[|puts| - 1], sid, index)
    ensures IsAcknowledged(puts, sid, index)
  {
  }

  lemma NoEvents(kind: Kind)
    ensures Count([], kind) == 0
  {
  }

  lemma CountSnoc(events: seq<Event>, kind: Kind)
    ensures forall e :: Count(events + [e], kind) == Count(events, kind) + (if Matches(e, kind) then 1 else 0)
  {
    forall e
      ensures Count(events + [e], kind) == Count(events, kind) + (if Matches(e, kind) then 1 else 0)
    {
      assert (events + [e])[..|events|] == events;
    }
  }
}
