/** The persistence package: the transactional-outbox row and its three
    unguarded status transitions, and the soft-delete base entity. */
module Persistence {
  import opened Common

  datatype OutboxStatus = PENDING | PUBLISHED | FAILED

  /** Every field of an outbox row, as one value. */
  datatype OutboxRow = OutboxRow(
    id: Option<int>,
    eventId: string,
    eventType: string,
    aggregateType: string,
    aggregateId: string,
    payload: string,
    status: OutboxStatus,
    createdAt: Timestamp,
    publishedAt: Option<Timestamp>,
    retryCount: nat,
    lastError: Option<string>)

  /** One call of a mark method; the clock reading and the error text are its arguments. */
  datatype OutboxMark = MarkPublished(at: Timestamp) | MarkFailed(error: Option<string>) | MarkRetry

  /** The fields no mark method touches. */
  predicate SameIdentity(r: OutboxRow, r': OutboxRow)
  {
    r'.id == r.id && r'.eventId == r.eventId && r'.eventType == r.eventType &&
    r'.aggregateType == r.aggregateType && r'.aggregateId == r.aggregateId &&
    r'.payload == r.payload && r'.createdAt == r.createdAt
  }

  /** The row built by the public constructor; the random UUID and the clock are inputs. */
  function NewOutboxRow(eventId: string, eventType: string, aggregateType: string, aggregateId: string,
                        payload: string, now: Timestamp): (r: OutboxRow)
    ensures r.status == PENDING && r.retryCount == 0
    ensures r.publishedAt == None && r.lastError == None && r.id == None
    ensures r.eventId == eventId && r.eventType == eventType && r.aggregateType == aggregateType
    ensures r.aggregateId == aggregateId && r.payload == payload && r.createdAt == now
  {
    OutboxRow(None, eventId, eventType, aggregateType, aggregateId, payload, PENDING, now, None, 0, None)
  }

  /** The effect of one mark method. No transition is guarded: every mark applies in every status,
      so a PUBLISHED row can go back to PENDING or to FAILED. */
  function ApplyMark(r: OutboxRow, m: OutboxMark): (r': OutboxRow)
    ensures SameIdentity(r, r')
    ensures m.MarkPublished? ==>
      r'.status == PUBLISHED && r'.publishedAt == Some(m.at) &&
      r'.retryCount == r.retryCount && r'.lastError == r.lastError
    ensures m.MarkFailed? ==>
      r'.status == FAILED && r'.lastError == m.error && r'.retryCount == r.retryCount + 1 &&
      r'.publishedAt == r.publishedAt
    ensures m.MarkRetry? ==> r' == r.(status := PENDING)
  {
    match m
    case MarkPublished(at) => r.(status := PUBLISHED, publishedAt := Some(at))
    case MarkFailed(error) => r.(status := FAILED, lastError := error, retryCount := r.retryCount + 1)
    case MarkRetry => r.(status := PENDING)
  }

  /** The row after a sequence of mark calls, oldest first. */
  function ApplyMarks(r: OutboxRow, ms: seq<OutboxMark>): OutboxRow
  {
    if ms == [] then r else ApplyMark(ApplyMarks(r, ms[..|ms| - 1]), ms[|ms| - 1])
  }

  /** How many of the calls were markAsFailed. */
  function FailureCount(ms: seq<OutboxMark>): nat
  {
    if ms == [] then 0 else FailureCount(ms[..|ms| - 1]) + (if ms[|ms| - 1].MarkFailed? then 1 else 0)
  }

  /** Whatever the calls, the identifying fields stay, and retryCount grows by exactly the
      number of markAsFailed calls. */
  lemma {:induction false} RetryCountCountsFailures(r: OutboxRow, ms: seq<OutboxMark>)
    ensures SameIdentity(r, ApplyMarks(r, ms))
    ensures ApplyMarks(r, ms).retryCount == r.retryCount + FailureCount(ms)
  {
    if ms != [] {
      RetryCountCountsFailures(r, ms[..|ms| - 1]);
    }
  }

  /** One more mark call applies to the row the earlier calls produced. */
  lemma MarkStep(r: OutboxRow, ms: seq<OutboxMark>, m: OutboxMark)
    ensures ApplyMarks(r, ms + [m]) == ApplyMark(ApplyMarks(r, ms), m)
  {
    assert (ms + [m])[..|ms|] == ms;
  }

  /** retryCount never decreases: a longer history never has a smaller count. */
  lemma {:induction false} RetryCountMonotone(r: OutboxRow, ms: seq<OutboxMark>, k: nat)
    requires k <= |ms|
    ensures ApplyMarks(r, ms[..k]).retryCount <= ApplyMarks(r, ms).retryCount
  {
    if k < |ms| {
      assert ms[..|ms| - 1][..k] == ms[..k];
      RetryCountMonotone(r, ms[..|ms| - 1], k);
    } else {
      assert ms[..k] == ms;
    }
  }

  /** A published row is not terminal: retry brings it back to PENDING with its publish time,
      and a later failure counts against it. */
  lemma PublishedIsNotTerminal(r: OutboxRow, at: Timestamp, error: Option<string>)
    ensures ApplyMarks(r, [MarkPublished(at), MarkRetry]).status == PENDING
    ensures ApplyMarks(r, [MarkPublished(at), MarkRetry]).publishedAt == Some(at)
    ensures ApplyMarks(r, [MarkPublished(at), MarkFailed(error)]).status == FAILED
    ensures ApplyMarks(r, [MarkPublished(at), MarkFailed(error)]).retryCount == r.retryCount + 1
  {
    assert [MarkPublished(at), MarkRetry][..1] == [MarkPublished(at)];
    assert [MarkPublished(at), MarkFailed(error)][..1] == [MarkPublished(at)];
    assert [MarkPublished(at)][..0] == [];
    assert ApplyMarks(r, [MarkPublished(at)]) == ApplyMark(r, MarkPublished(at));
  }

  /** The outbox entity. Its mark methods assign only status, publishedAt, lastError and
      retryCount; the ghost history records every mark since construction. */
  class OutboxEvent {
    var id: Option<int>
    var eventId: string
    var eventType: string
    var aggregateType: string
    var aggregateId: string
    var payload: string
    var status: OutboxStatus
    var createdAt: Timestamp
    var publishedAt: Option<Timestamp>
    var retryCount: nat
    var lastError: Option<string>

    ghost const created: OutboxRow
    ghost var marks: seq<OutboxMark>

    function Row(): OutboxRow
      reads this
    {
      OutboxRow(id, eventId, eventType, aggregateType, aggregateId, payload, status, createdAt,
                publishedAt, retryCount, lastError)
    }

    /** The current row is the row it was created as, after every mark call so far. */
    ghost predicate Valid()
      reads this
    {
      Row() == ApplyMarks(created, marks)
    }

    constructor (eventId: string, eventType: string, aggregateType: string, aggregateId: string,
                 payload: string, now: Timestamp)
      ensures Valid() && marks == []
      ensures Row() == NewOutboxRow(eventId, eventType, aggregateType, aggregateId, payload, now)
    {
      this.id := None;
      this.eventId := eventId;
      this.eventType := eventType;
      this.aggregateType := aggregateType;
      this.aggregateId := aggregateId;
      this.payload := payload;
      this.status := PENDING;
      this.createdAt := now;
      this.publishedAt := None;
      this.retryCount := 0;
      this.lastError := None;
      this.created := NewOutboxRow(eventId, eventType, aggregateType, aggregateId, payload, now);
      this.marks := [];
    }

    method MarkAsPublished(now: Timestamp)
      requires Valid()
      modifies this`status, this`publishedAt, this`marks
      ensures Valid() && marks == old(marks) + [MarkPublished(now)]
      ensures Row() == ApplyMark(old(Row()), MarkPublished(now))
    {
      status := PUBLISHED;
      publishedAt := Some(now);
      marks := marks + [MarkPublished(now)];
    }

    method MarkAsFailed(error: Option<string>)
      requires Valid()
      modifies this`status, this`lastError, this`retryCount, this`marks
      ensures Valid() && marks == old(marks) + [MarkFailed(error)]
      ensures Row() == ApplyMark(old(Row()), MarkFailed(error))
      ensures retryCount == created.retryCount + FailureCount(marks)
    {
      ghost var before := Row();
      MarkStep(created, marks, MarkFailed(error));
      RetryCountCountsFailures(created, marks + [MarkFailed(error)]);
      status := FAILED;
      lastError := error;
      retryCount := retryCount + 1;
      marks := marks + [MarkFailed(error)];
      assert Row() == ApplyMark(before, MarkFailed(error));
    }

    method MarkForRetry()
      requires Valid()
      modifies this`status, this`marks
      ensures Valid() && marks == old(marks) + [MarkRetry]
      ensures Row() == ApplyMark(old(Row()), MarkRetry)
    {
      status := PENDING;
      marks := marks + [MarkRetry];
    }
  }

  /** Soft-delete base entity: id, createdAt and updatedAt are assigned by the ORM and its
      auditing listener, and delete/restore never touch them. */
  class SoftDeleteEntity {
    var id: Option<int>
    var createdAt: Option<Timestamp>
    var updatedAt: Option<Timestamp>
    var deletedAt: Option<Timestamp>
    var deleted: bool

    /** deleted exactly when a deletion time is recorded. */
    ghost predicate Valid()
      reads this
    {
      deleted <==> deletedAt.Some?
    }

    constructor ()
      ensures Valid() && !deleted && deletedAt == None
      ensures id == None && createdAt == None && updatedAt == None
    {
      id := None;
      createdAt := None;
      updatedAt := None;
      deletedAt := None;
      deleted := false;
    }

    method Delete(now: Timestamp)
      modifies this`deleted, this`deletedAt
      ensures Valid() && deleted && deletedAt == Some(now)
    {
      deleted := true;
      deletedAt := Some(now);
    }

    method Restore()
      modifies this`deleted, this`deletedAt
      ensures Valid() && !deleted && deletedAt == None
    {
      deleted := false;
      deletedAt := None;
    }
  }
}
