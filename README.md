# common-lib core, modelled in Dafny

This project models the small pieces of sequential logic in the shared DDD/CQRS library
`common-lib`, and proves what they promise:

- the transactional-outbox row and its three unguarded status transitions;
- the soft-delete base entity;
- the retry interceptor's bounded loop and the default retry policy;
- the command and query buses, which resolve a handler by the message's exact runtime class
  and memoise it;
- the read-model projector, whose routing table lets the last registration win;
- the aggregate root's domain-event buffer, and the publisher port's default methods that
  publish events in order and then clear the buffers;
- the domain mapper's list conversions;
- the pagination records `Sort`, `PageRequest`, `Page` and `Slice`;
- the specification algebra, in its interface-default and `CompositeSpecification` forms;
- business-rule validation;
- value-object and entity equality and hashing;
- the global exception handler's mapping from an error group to an HTTP status.

Java's `null` is `Option.None`, or a nullable class reference where the source compares
references. A thrown exception is a value (`Result`, `Outcome`, `Dispatched`, `Invocation`).
Java `int` and `long` are the subset types `Int32` and `Int64`. Where the source's `int`
arithmetic can overflow (`hashCode`, `next`, `totalPages - 1`), it is written out with `Wrap32`.
Clocks, UUIDs, reflection and `Thread.sleep` are parameters or logs:

- a timestamp argument stands for `LocalDateTime.now()`;
- a given `eventId` stands for `UUID.randomUUID()`;
- the handler beans are a sequence of (type argument, handler) pairs in the container's
  enumeration order;
- a sleep is appended to a sleep log.

Files, one module each:

| file | module | source package |
|---|---|---|
| common.dfy | `Common` | Java null, exceptions, `int`/`long` |
| persistence.dfy | `Persistence` | `infrastructure.persistence` |
| retry.dfy | `Retry` | `infrastructure.retry`, `retry`, `annotaion` |
| cqrs.dfy | `Cqrs` | `infrastructure.cqrs` |
| domain_events.dfy | `DomainEvents` | `domain.event` |
| out_ports.dfy | `OutPorts` | `application.port.out` |
| pagination.dfy | `Pagination` | `domain.pagination` |
| domain_errors.dfy | `DomainErrors` | `domain.exception` |
| policy.dfy | `Policy` | `domain.policy` |
| exception_handling.dfy | `ExceptionHandling` | `infrastructure.exception` |
| domain_model.dfy | `DomainModel` | `domain.model` |

## Model

| member | source | states |
|---|---|---|
| Common.Wrap32 | common-domain/src/main/java/com/lxp/common/domain/model/ValueObject.java:45 | Java `int` arithmetic: the result is in the int range, agrees with the mathematical value when that fits, and is congruent to it modulo 2^32 |
| Common.MapSeq | common-application/src/main/java/com/lxp/common/application/port/out/DomainMapper.java:30-32 | `stream().map(f).toList()` keeps the length and order, and element i is f of element i |
| Persistence.NewOutboxRow | common-infrastructure/src/main/java/com/lxp/common/infrastructure/persistence/OutboxEvent.java:68-77 | a new row is PENDING with retryCount 0, no id, publishedAt or lastError, and holds the given identity, payload and creation time |
| Persistence.ApplyMark | common-infrastructure/src/main/java/com/lxp/common/infrastructure/persistence/OutboxEvent.java:79-92 | markAsPublished sets PUBLISHED and publishedAt and keeps retryCount and lastError; markAsFailed sets FAILED and lastError and adds exactly 1 to retryCount; markForRetry changes the status to PENDING and nothing else; no mark touches id, eventId, eventType, aggregateType, aggregateId, payload or createdAt; no transition is guarded |
| Persistence.RetryCountCountsFailures | common-infrastructure/src/main/java/com/lxp/common/infrastructure/persistence/OutboxEvent.java:79-92 | after any sequence of mark calls, the identifying fields are unchanged and retryCount has grown by exactly the number of markAsFailed calls |
| Persistence.RetryCountMonotone | common-infrastructure/src/main/java/com/lxp/common/infrastructure/persistence/OutboxEvent.java:84-88 | retryCount never decreases along a history of mark calls |
| Persistence.PublishedIsNotTerminal | common-infrastructure/src/main/java/com/lxp/common/infrastructure/persistence/OutboxEvent.java:79-92 | a PUBLISHED row can go back to PENDING, keeping its publish time, or to FAILED, counting the failure |
| Persistence.OutboxEvent.constructor | common-infrastructure/src/main/java/com/lxp/common/infrastructure/persistence/OutboxEvent.java:68-77 | the object's fields are the new row, and its history of mark calls is empty |
| Persistence.OutboxEvent.MarkAsPublished | common-infrastructure/src/main/java/com/lxp/common/infrastructure/persistence/OutboxEvent.java:79-82 | assigns only status and publishedAt; the new fields are ApplyMark of the old ones, and the invariant that the fields equal the created row after every recorded mark is kept |
| Persistence.OutboxEvent.MarkAsFailed | common-infrastructure/src/main/java/com/lxp/common/infrastructure/persistence/OutboxEvent.java:84-88 | assigns only status, lastError and retryCount, as ApplyMark says; retryCount equals the number of failures since construction |
| Persistence.OutboxEvent.MarkForRetry | common-infrastructure/src/main/java/com/lxp/common/infrastructure/persistence/OutboxEvent.java:90-92 | assigns only status, back to PENDING, as ApplyMark says, keeping the invariant |
| Persistence.SoftDeleteEntity.constructor | common-infrastructure/src/main/java/com/lxp/common/infrastructure/persistence/BaseSoftDeleteJpaEntity.java:34-38 | a new entity is not deleted, has no deletedAt, and satisfies "deleted iff deletedAt is set" |
| Persistence.SoftDeleteEntity.Delete | common-infrastructure/src/main/java/com/lxp/common/infrastructure/persistence/BaseSoftDeleteJpaEntity.java:67-70 | sets deleted and deletedAt to the given time, establishes "deleted iff deletedAt is set", and may change no other field (id, createdAt, updatedAt) |
| Persistence.SoftDeleteEntity.Restore | common-infrastructure/src/main/java/com/lxp/common/infrastructure/persistence/BaseSoftDeleteJpaEntity.java:75-78 | clears deleted and deletedAt, establishes the invariant, and may change no other field |
| Retry.DefaultRetryPolicy | common-infrastructure/src/main/java/com/lxp/common/infrastructure/retry/DefaultRetryPolicy.java:8-24 | three attempts, 100 ms for every attempt, and a failure is retried exactly when it is an optimistic-locking failure |
| Retry.ResolveMaxAttempts | common-infrastructure/src/main/java/com/lxp/common/infrastructure/retry/RetryAspect.java:40-44 | the annotation's maxAttempts when positive, otherwise the policy's |
| Retry.ResolveBackoff | common-infrastructure/src/main/java/com/lxp/common/infrastructure/retry/RetryAspect.java:46-50 | the annotation's backoffMillis when positive, otherwise the policy's backoff for this attempt |
| Retry.Retry | common-infrastructure/src/main/java/com/lxp/common/infrastructure/retry/RetryAspect.java:21-38 | the `while (true)` loop returns exactly the outcome, the invocation count and the sleep log of the run `RetryRun` specifies |
| Retry.RunFromShape | common-infrastructure/src/main/java/com/lxp/common/infrastructure/retry/RetryAspect.java:25-37 | from any attempt on: the invocation count is between that attempt and max(1, maxAttempts); there is one sleep per retried attempt, each the resolved backoff of its attempt; every invocation but the last was a retriable failure |
| Retry.RetryBounds | common-infrastructure/src/main/java/com/lxp/common/infrastructure/retry/RetryAspect.java:21-38 | the call is invoked at least once and at most max(1, maxAttempts) times, with exactly one sleep between consecutive invocations, and only after retriable exceptions |
| Retry.RunFromOutcome | common-infrastructure/src/main/java/com/lxp/common/infrastructure/retry/RetryAspect.java:28-35 | the final result is the last invocation's own value or throwable, not wrapped, unless sleeping for a negative backoff threw |
| Retry.RetryOutcome | common-infrastructure/src/main/java/com/lxp/common/infrastructure/retry/RetryAspect.java:28-35 | the same, for the whole run |
| Retry.SucceedsOnAttempt | common-infrastructure/src/main/java/com/lxp/common/infrastructure/retry/RetryAspect.java:25-37 | if every earlier attempt fails retriably and attempt k returns, the interceptor returns that value after exactly k invocations and k - 1 sleeps |
| Retry.RunPassesNonNegativeSleep | common-infrastructure/src/main/java/com/lxp/common/infrastructure/retry/RetryAspect.java:30-35 | a run never stops on a retriable failure with attempts left unless its backoff was negative |
| Retry.NotRetriedOnFirstAttempt | common-infrastructure/src/main/java/com/lxp/common/infrastructure/retry/RetryAspect.java:29-32 | a throwable the policy does not retry, or one that is not an Exception, is thrown after one invocation with no sleep |
| Retry.ExhaustsAttempts | common-infrastructure/src/main/java/com/lxp/common/infrastructure/retry/RetryAspect.java:30-32 | when every attempt fails retriably, the call runs exactly max(1, maxAttempts) times and the last failure is rethrown |
| Retry.DefaultPolicyGivesThreeAttempts | common-infrastructure/src/main/java/com/lxp/common/infrastructure/retry/DefaultRetryPolicy.java:10-23 | worked example of ExhaustsAttempts: with the default policy and no positive override, constant optimistic-locking failures give three invocations, two 100 ms sleeps, and the third failure rethrown |
| Retry.ThirdAttemptSucceeds | common-infrastructure/src/main/java/com/lxp/common/infrastructure/retry/RetryAspect.java:25-37 | worked example of SucceedsOnAttempt: two retriable failures and then a value, under three attempts: that value after three invocations and two sleeps |
| Cqrs.FindHandler | common-infrastructure/src/main/java/com/lxp/common/infrastructure/cqrs/SimpleCommandBus.java:52-64 | no handler exactly when no bean's type argument equals the class; otherwise the handler of the first such bean in enumeration order |
| Cqrs.FirstMatchWins | common-infrastructure/src/main/java/com/lxp/common/infrastructure/cqrs/SimpleQueryBus.java:38-50 | several matching beans are no error: the first one enumerated is chosen |
| Cqrs.Resolve | common-infrastructure/src/main/java/com/lxp/common/infrastructure/cqrs/SimpleCommandBus.java:33-36 | computeIfAbsent: a cached handler is returned with the cache unchanged; on a miss the result is exactly the search's, and a found handler is stored under the class; a failed search stores nothing; no existing entry changes |
| Cqrs.ResolveAgreesWithSearch | common-infrastructure/src/main/java/com/lxp/common/infrastructure/cqrs/SimpleCommandBus.java:33-36 | from a consistent cache, resolution gives exactly what the search gives, and the cache stays consistent |
| Cqrs.ResolveIsStable | common-infrastructure/src/main/java/com/lxp/common/infrastructure/cqrs/SimpleQueryBus.java:30-33 | resolving the same class again gives the same handler and changes nothing |
| Cqrs.SimpleCommandBus.constructor | common-infrastructure/src/main/java/com/lxp/common/infrastructure/cqrs/SimpleCommandBus.java:21-27 | both caches start empty |
| Cqrs.SimpleCommandBus.Dispatch | common-infrastructure/src/main/java/com/lxp/common/infrastructure/cqrs/SimpleCommandBus.java:32-38 | the command cache becomes what computeIfAbsent leaves; the handler the search finds is invoked once and its result passed back, or "No handler found for command: " with the class name is thrown |
| Cqrs.SimpleCommandBus.DispatchWithResult | common-infrastructure/src/main/java/com/lxp/common/infrastructure/cqrs/SimpleCommandBus.java:43-49 | the same through the separate result-handler cache and bean list, with the message "No result handler found for command: " |
| Cqrs.SimpleQueryBus.constructor | common-infrastructure/src/main/java/com/lxp/common/infrastructure/cqrs/SimpleQueryBus.java:19-24 | the cache starts empty |
| Cqrs.SimpleQueryBus.Dispatch | common-infrastructure/src/main/java/com/lxp/common/infrastructure/cqrs/SimpleQueryBus.java:29-35 | the same for queries, with the message "No handler found for query: " |
| Cqrs.RoutedIffDeclared | common-infrastructure/src/main/java/com/lxp/common/infrastructure/cqrs/ReadModelProjector.java:21-24 | the routing table holds a class exactly when some updater declares it |
| Cqrs.LastRegistrationWins | common-infrastructure/src/main/java/com/lxp/common/infrastructure/cqrs/ReadModelProjector.java:21-24 | a routed class goes to the last updater in the list that declares it |
| Cqrs.ReadModelProjector.constructor | common-infrastructure/src/main/java/com/lxp/common/infrastructure/cqrs/ReadModelProjector.java:21-24 | the put loop builds exactly the routing table of the updater list |
| Cqrs.ReadModelProjector.OnDomainEvent | common-infrastructure/src/main/java/com/lxp/common/infrastructure/cqrs/ReadModelProjector.java:33-40 | an updater is invoked exactly when one declares the event's exact class, and it is the last such updater; the table is not modified |
| DomainEvents.AggregateRoot.constructor | common-domain/src/main/java/com/lxp/common/domain/event/AggregateRoot.java:11 | the event buffer starts empty |
| DomainEvents.AggregateRoot.RegisterEvent | common-domain/src/main/java/com/lxp/common/domain/event/AggregateRoot.java:13-18 | null throws "Domain event must not be null" and leaves the buffer unchanged; any other event is appended after the earlier ones |
| DomainEvents.AggregateRoot.ClearDomainEvents | common-domain/src/main/java/com/lxp/common/domain/event/AggregateRoot.java:24-26 | the buffer is empty afterwards |
| OutPorts.FirstRejected | common-application/src/main/java/com/lxp/common/application/port/out/DomainEventPublisher.java:22-24 | the position where the forEach stops: within the list, and at a rejected event unless it is the length |
| OutPorts.AcceptedBeforeFirstRejected | common-application/src/main/java/com/lxp/common/application/port/out/DomainEventPublisher.java:22-24 | every event before the stopping position is accepted |
| OutPorts.Rejected | common-application/src/main/java/com/lxp/common/application/port/out/DomainEventPublisher.java:22-24 | an exception propagates only for an event of the list that publish rejects |
| OutPorts.RejectedPassIff | common-application/src/main/java/com/lxp/common/application/port/out/DomainEventPublisher.java:22-24 | publishAll completes exactly when publish accepts every event |
| OutPorts.AllDelivered | common-application/src/main/java/com/lxp/common/application/port/out/DomainEventPublisher.java:22-24 | when it completes, every event was delivered |
| OutPorts.DeliveredAppend | common-application/src/main/java/com/lxp/common/application/port/out/DomainEventPublisher.java:37-39 | publishing a concatenation reaches the second list only if the first went through |
| OutPorts.PublishLists | common-application/src/main/java/com/lxp/common/application/port/out/DomainEventPublisher.java:37-39 | publishing several lists in turn: any exception comes from a rejected event |
| OutPorts.PublishListsStep | common-application/src/main/java/com/lxp/common/application/port/out/DomainEventPublisher.java:37-39 | one list of the turn: a rejected list ends the run where it stopped, an accepted one is delivered whole before the rest |
| OutPorts.PublishListsIsPublishAll | common-application/src/main/java/com/lxp/common/application/port/out/DomainEventPublisher.java:37-39 | publishing the lists in turn delivers and throws exactly what publishing their concatenation does |
| OutPorts.DomainEventPublisher.constructor | common-application/src/main/java/com/lxp/common/application/port/out/DomainEventPublisher.java:17 | nothing delivered yet |
| OutPorts.DomainEventPublisher.Publish | common-application/src/main/java/com/lxp/common/application/port/out/DomainEventPublisher.java:17 | an accepted event is delivered after the earlier ones; a rejected one throws and delivers nothing |
| OutPorts.DomainEventPublisher.PublishAll | common-application/src/main/java/com/lxp/common/application/port/out/DomainEventPublisher.java:22-24 | publish is called once per event in order: the events up to the first rejected one are delivered, and that event's exception propagates |
| OutPorts.DomainEventPublisher.PublishAndClear | common-application/src/main/java/com/lxp/common/application/port/out/DomainEventPublisher.java:29-32 | publishes the aggregate's current events in order and then empties its buffer; when a publish throws, the buffer is not cleared |
| OutPorts.DomainEventPublisher.PublishAndClearAll | common-application/src/main/java/com/lxp/common/application/port/out/DomainEventPublisher.java:37-39 | after a run that throws nothing every aggregate's buffer is empty; for distinct aggregates, exactly the concatenation of their events is delivered, up to the first rejected one, whose exception propagates; on a thrown run (`StoppedAt`) every aggregate before the one holding the rejected event is cleared, and that one and every later one keep their events |
| OutPorts.ToDomainList | common-application/src/main/java/com/lxp/common/application/port/out/DomainMapper.java:26-33 | null gives the empty list; otherwise element i is toDomain of entity i, with the same length |
| OutPorts.ToEntityList | common-application/src/main/java/com/lxp/common/application/port/out/DomainMapper.java:38-45 | null gives the empty list; otherwise element i is toEntity of domain object i, with the same length |
| OutPorts.MapperRoundTrip | common-application/src/main/java/com/lxp/common/application/port/out/DomainMapper.java:26-45 | when toDomain undoes toEntity on each element, toDomainList(toEntityList(ds)) == ds |
| Pagination.Order.IsAscending | common-domain/src/main/java/com/lxp/common/domain/pagination/Sort.java:64-70 | never both isAscending and isDescending; exactly one when the direction is not null, and neither for a null direction |
| Pagination.Asc | common-domain/src/main/java/com/lxp/common/domain/pagination/Sort.java:56-58 | an ascending order on the property |
| Pagination.Desc | common-domain/src/main/java/com/lxp/common/domain/pagination/Sort.java:60-62 | a descending order on the property |
| Pagination.Sort.IsSorted | common-domain/src/main/java/com/lxp/common/domain/pagination/Sort.java:42-48 | isSorted is always the negation of isUnsorted |
| Pagination.Sort.And | common-domain/src/main/java/com/lxp/common/domain/pagination/Sort.java:36-40 | this sort's orders, followed by the other's |
| Pagination.Unsorted | common-domain/src/main/java/com/lxp/common/domain/pagination/Sort.java:12-14 | no orders: unsorted and not sorted |
| Pagination.ByOrders | common-domain/src/main/java/com/lxp/common/domain/pagination/Sort.java:32-34 | the given orders in the given order |
| Pagination.By | common-domain/src/main/java/com/lxp/common/domain/pagination/Sort.java:16-22 | one ascending order per property, in property order |
| Pagination.ByDirection | common-domain/src/main/java/com/lxp/common/domain/pagination/Sort.java:24-30 | one order per property, all in the given direction, in property order; a null direction is accepted and gives orders that are neither ascending nor descending |
| Pagination.UnsortedIsIdentity | common-domain/src/main/java/com/lxp/common/domain/pagination/Sort.java:36-40 | unsorted is a left and a right identity of and |
| Pagination.AndIsAssociative | common-domain/src/main/java/com/lxp/common/domain/pagination/Sort.java:36-40 | and is associative |
| Pagination.AndIsSorted | common-domain/src/main/java/com/lxp/common/domain/pagination/Sort.java:36-44 | a combined sort is sorted exactly when one of its parts is |
| Pagination.NewPageRequest | common-domain/src/main/java/com/lxp/common/domain/pagination/PageRequest.java:15-25 | a negative page number throws "Page number must not be negative", then a size below one throws "Page size must be at least 1"; otherwise the request is built, with a size above 100 clamped to 100, and satisfies pageNumber >= 0 and 1 <= pageSize <= 100 |
| Pagination.Of | common-domain/src/main/java/com/lxp/common/domain/pagination/PageRequest.java:27-29 | the constructor with the unsorted sort |
| Pagination.OfSorted | common-domain/src/main/java/com/lxp/common/domain/pagination/PageRequest.java:31-33 | succeeds exactly for a non-negative page and a positive size, and keeps the sort |
| Pagination.FirstOf | common-domain/src/main/java/com/lxp/common/domain/pagination/PageRequest.java:35-37 | page 0, unsorted, for any positive size; a size below one throws |
| Pagination.First | common-domain/src/main/java/com/lxp/common/domain/pagination/PageRequest.java:39-41 | page 0 of size 20, unsorted |
| Pagination.GetOffset | common-domain/src/main/java/com/lxp/common/domain/pagination/PageRequest.java:43-45 | pageNumber × pageSize, which always fits a long |
| Pagination.Next | common-domain/src/main/java/com/lxp/common/domain/pagination/PageRequest.java:47-49 | the page number plus one with size and sort kept; at the largest int the increment wraps and the constructor throws |
| Pagination.Previous | common-domain/src/main/java/com/lxp/common/domain/pagination/PageRequest.java:51-53 | page 0 is its own previous; any other page steps back by one, keeping size and sort |
| Pagination.WithSort | common-domain/src/main/java/com/lxp/common/domain/pagination/PageRequest.java:55-57 | only the sort changes |
| Pagination.PreviousUndoesNext | common-domain/src/main/java/com/lxp/common/domain/pagination/PageRequest.java:47-53 | previous(next(r)) == r below the largest page number |
| Pagination.NextUndoesPrevious | common-domain/src/main/java/com/lxp/common/domain/pagination/PageRequest.java:47-53 | next(previous(r)) == r for any page but the first |
| Pagination.OffsetAdvancesByPageSize | common-domain/src/main/java/com/lxp/common/domain/pagination/PageRequest.java:43-53 | the next page's offset is this one's plus the page size, and the previous page's is this one's minus it |
| Pagination.CeilDiv | common-domain/src/main/java/com/lxp/common/domain/pagination/Page.java:24 | the ceiling of the quotient, bracketed by the divisor's multiples on either sign |
| Pagination.SaturateToInt | common-domain/src/main/java/com/lxp/common/domain/pagination/Page.java:24 | the (int) cast of an integral double: the value when it fits, else the nearer int bound |
| Pagination.TotalPages | common-domain/src/main/java/com/lxp/common/domain/pagination/Page.java:24 | for a positive size, the ceiling of totalElements / pageSize (saturated at the int bounds) and never negative for a non-negative total; for size 0, the largest int for a positive total and 0 for a zero total; for a negative size, the ceiling of the exact quotient when it lies strictly inside the int range |
| Pagination.Page.Map | common-domain/src/main/java/com/lxp/common/domain/pagination/Page.java:60-76 | every metadata field kept, same content length, element i converted |
| Pagination.Page.IsEmpty | common-domain/src/main/java/com/lxp/common/domain/pagination/Page.java:78-84 | isEmpty holds exactly when getNumberOfElements is 0 |
| Pagination.Page.GetNumberOfElements | common-domain/src/main/java/com/lxp/common/domain/pagination/Page.java:82-84 | the content length |
| Pagination.PageOf | common-domain/src/main/java/com/lxp/common/domain/pagination/Page.java:23-41 | keeps the arguments, totalPages from the totals; first iff page 0, hasPrevious iff page > 0, last exactly when not hasNext |
| Pagination.EmptyPage | common-domain/src/main/java/com/lxp/common/domain/pagination/Page.java:43-55 | no content, page 0, zero totals, first and last, neither next nor previous |
| Pagination.EmptyPageIsPageOfNothing | common-domain/src/main/java/com/lxp/common/domain/pagination/Page.java:23-55 | empty(n) is exactly of(no content, 0, n, 0), for every int n |
| Pagination.HasNextIffElementsRemain | common-domain/src/main/java/com/lxp/common/domain/pagination/Page.java:24-27 | for a positive size, a page has a next page exactly when some element lies after it, and is last exactly when none does |
| Pagination.Slice.Map | common-domain/src/main/java/com/lxp/common/domain/pagination/Slice.java:53-67 | every metadata field kept, same content length, element i converted |
| Pagination.Slice.IsEmpty | common-domain/src/main/java/com/lxp/common/domain/pagination/Slice.java:69-75 | isEmpty holds exactly when getNumberOfElements is 0 |
| Pagination.Slice.GetNumberOfElements | common-domain/src/main/java/com/lxp/common/domain/pagination/Slice.java:73-75 | the content length |
| Pagination.SliceOf | common-domain/src/main/java/com/lxp/common/domain/pagination/Slice.java:22-36 | keeps the arguments; first iff page 0, hasPrevious iff page > 0, last iff not hasNext |
| Pagination.EmptySlice | common-domain/src/main/java/com/lxp/common/domain/pagination/Slice.java:38-48 | no content, page 0, first and last, neither next nor previous |
| Pagination.EmptySliceIsSliceOfNothing | common-domain/src/main/java/com/lxp/common/domain/pagination/Slice.java:22-48 | empty(n) is exactly of(no content, 0, n, false) |
| Pagination.SliceOfPageAgrees | common-domain/src/main/java/com/lxp/common/domain/pagination/Slice.java:22-36 | a slice built from a page's position and hasNext has the page's first, last and hasPrevious flags |
| Pagination.MapComposes | common-domain/src/main/java/com/lxp/common/domain/pagination/Page.java:60-76 | mapping twice equals mapping once by the composed converter, for pages and slices |
| DomainErrors.DefaultGroupCode | common-domain/src/main/java/com/lxp/common/domain/exception/ErrorCode.java:18-20 | an error code that keeps the default getGroup reports "INTERNAL_ERROR" |
| DomainErrors.FromErrorCode | common-domain/src/main/java/com/lxp/common/domain/exception/DomainException.java:10-13 | the one-argument constructor takes its message from the error code |
| Policy.Spec.And | common-domain/src/main/java/com/lxp/common/domain/policy/CompositeSpecification.java:15-17 | satisfied exactly when both are, in both the composite and the default form; the result is composite exactly when the receiver is |
| Policy.Spec.Or | common-domain/src/main/java/com/lxp/common/domain/policy/CompositeSpecification.java:20-22 | satisfied exactly when either is, in both forms |
| Policy.Spec.Not | common-domain/src/main/java/com/lxp/common/domain/policy/CompositeSpecification.java:25-27 | satisfied exactly when the receiver is not, in both forms |
| Policy.Always | common-domain/src/main/java/com/lxp/common/domain/policy/Specification.java:40-42 | satisfied by every entity |
| Policy.Never | common-domain/src/main/java/com/lxp/common/domain/policy/Specification.java:47-49 | satisfied by none |
| Policy.CompositeAgreesWithDefault | common-domain/src/main/java/com/lxp/common/domain/policy/CompositeSpecification.java:15-69 | AndSpecification, OrSpecification and NotSpecification are equivalent to the interface's default lambdas, and a composite's and agrees with a plain one's |
| Policy.DeMorgan | common-domain/src/main/java/com/lxp/common/domain/policy/CompositeSpecification.java:38-69 | a.and(b).not() is equivalent to a.not().or(b.not()), and dually |
| Policy.DoubleNegation | common-domain/src/main/java/com/lxp/common/domain/policy/Specification.java:33-35 | not().not() is equivalent to the original |
| Policy.AlwaysAndNever | common-domain/src/main/java/com/lxp/common/domain/policy/Specification.java:19-49 | always is the unit of and and the zero of or, never the reverse, and not(always) is never |
| Policy.EquivalenceIsCongruence | common-domain/src/main/java/com/lxp/common/domain/policy/Specification.java:19-35 | replacing operands by equivalent ones gives equivalent and, or and not |
| Policy.Validate | common-domain/src/main/java/com/lxp/common/domain/policy/BusinessRuleValidator.java:7-12 | returns normally exactly when the rule is not broken; a broken rule throws a domain exception carrying its error code and message |
| Policy.ValidateAll | common-domain/src/main/java/com/lxp/common/domain/policy/BusinessRuleValidator.java:14-18 | returns normally exactly when no rule is broken, the empty list included; otherwise throws validate's exception for the first broken rule, and no rule after it is consulted |
| ExceptionHandling.HttpStatus.Value | common-infrastructure/src/main/java/com/lxp/common/infrastructure/exception/GlobalExceptionHandler.java:23-36 | the status is always one of 404, 400, 409, 403, 401 and 500 |
| ExceptionHandling.UpperChar | common-infrastructure/src/main/java/com/lxp/common/infrastructure/exception/GlobalExceptionHandler.java:28 | an ASCII lower-case letter becomes its upper-case form, any other character is kept, and the result is never lower-case |
| ExceptionHandling.ToUpperAscii | common-infrastructure/src/main/java/com/lxp/common/infrastructure/exception/GlobalExceptionHandler.java:28 | toUpperCase keeps the length and upper-cases each character |
| ExceptionHandling.ToUpperIsIdempotent | common-infrastructure/src/main/java/com/lxp/common/infrastructure/exception/GlobalExceptionHandler.java:28 | upper-casing twice is upper-casing once |
| ExceptionHandling.MapToHttpStatus | common-infrastructure/src/main/java/com/lxp/common/infrastructure/exception/GlobalExceptionHandler.java:23-36 | null maps to 500; otherwise the upper-cased group picks the status: NOT_FOUND→404, BAD_REQUEST or INVALID→400, CONFLICT→409, FORBIDDEN→403, UNAUTHORIZED→401, anything else 500, each an if-and-only-if |
| ExceptionHandling.MappingIgnoresCase | common-infrastructure/src/main/java/com/lxp/common/infrastructure/exception/GlobalExceptionHandler.java:28-35 | a group and its upper-cased form map to the same status |
| ExceptionHandling.DefaultGroupIsServerError | common-domain/src/main/java/com/lxp/common/domain/exception/ErrorCode.java:18-20 | the default group "INTERNAL_ERROR" maps to 500 |
| ExceptionHandling.UnknownGroupIsServerError | common-infrastructure/src/main/java/com/lxp/common/infrastructure/exception/GlobalExceptionHandler.java:34 | a group whose upper-case form is not listed maps to 500 |
| ExceptionHandling.LowerCaseGroupsMap | common-infrastructure/src/main/java/com/lxp/common/infrastructure/exception/GlobalExceptionHandler.java:28-30 | worked example of MappingIgnoresCase: "not_found" maps to 404 and "Invalid" to 400 |
| ExceptionHandling.HandleDomainException | common-infrastructure/src/main/java/com/lxp/common/infrastructure/exception/GlobalExceptionHandler.java:17-21 | the status of the exception's group, and a body with the exception's code, its own message and its group |
| ExceptionHandling.DefaultCodeExceptionResponse | common-domain/src/main/java/com/lxp/common/domain/exception/DomainException.java:10-13 | an exception made by the one-argument constructor from an error code that keeps the default group is answered with status 500 and a body holding the code's code, message and "INTERNAL_ERROR" |
| ExceptionHandling.BrokenRuleResponse | common-domain/src/main/java/com/lxp/common/domain/policy/BusinessRuleValidator.java:7-12 | a broken rule's exception reaches the client with the rule's code and message under its group's status, and a code with the default group gives 500 |
| DomainModel.ValueObject.constructor | common-domain/src/main/java/com/lxp/common/domain/model/ValueObject.java:13 | the object holds the given class and equality components |
| DomainModel.ValueObject.Equals | common-domain/src/main/java/com/lxp/common/domain/model/ValueObject.java:16-39 | the loop returns exactly `ValueEqual`: the same reference, or a non-null object of the same class with as many components, agreeing at every position |
| DomainModel.ValueObject.HashCode | common-domain/src/main/java/com/lxp/common/domain/model/ValueObject.java:42-48 | the accumulator loop returns the left fold of 31 * r + (component hash, or 0 for null), from 0, in int arithmetic |
| DomainModel.ComponentHash | common-domain/src/main/java/com/lxp/common/domain/model/ValueObject.java:45 | 0 for a null component, its hashCode otherwise |
| DomainModel.HashIsPolynomialModulo | common-domain/src/main/java/com/lxp/common/domain/model/ValueObject.java:42-48 | the int hash is the polynomial sum of h_i * 31^(n-1-i) reduced modulo 2^32 |
| DomainModel.HashDependsOnComponentHashes | common-domain/src/main/java/com/lxp/common/domain/model/ValueObject.java:42-48 | component lists whose hashes agree position by position hash alike |
| DomainModel.EqualValuesHashAlike | common-domain/src/main/java/com/lxp/common/domain/model/ValueObject.java:16-48 | equal value objects have equal hash codes, when the components' equals and hashCode are consistent |
| DomainModel.ValueEqualityReflexive | common-domain/src/main/java/com/lxp/common/domain/model/ValueObject.java:17-18 | an object equals itself and never equals null |
| DomainModel.ShapeMismatchIsUnequal | common-domain/src/main/java/com/lxp/common/domain/model/ValueObject.java:18-27 | distinct objects of different classes, or with different component counts, are never equal |
| DomainModel.ComponentwiseEquality | common-domain/src/main/java/com/lxp/common/domain/model/ValueObject.java:18-38 | distinct objects are equal exactly when the class and length agree and at each position both components are null or the left one is non-null and equals the right |
| DomainModel.ValueEqualitySymmetric | common-domain/src/main/java/com/lxp/common/domain/model/ValueObject.java:16-39 | with a symmetric component equals that never equals null, value equality is symmetric |
| DomainModel.BaseEntity.constructor | common-domain/src/main/java/com/lxp/common/domain/model/BaseEntity.java:11 | the object holds the given class and identifier |
| DomainModel.BaseEntity.Equals | common-domain/src/main/java/com/lxp/common/domain/model/BaseEntity.java:14-25 | the same reference is equal; null or another class is not; distinct objects with a null identifier on either side are not; otherwise equal exactly when the identifiers are |
| DomainModel.BaseEntity.HashCode | common-domain/src/main/java/com/lxp/common/domain/model/BaseEntity.java:28-30 | 0 for a null identifier, the identifier's hash otherwise |
| DomainModel.EqualEntitiesHashAlike | common-domain/src/main/java/com/lxp/common/domain/model/BaseEntity.java:14-30 | equal entities have equal hash codes when the identifiers' equals and hashCode agree |
| DomainModel.UnsavedEntitiesDiffer | common-domain/src/main/java/com/lxp/common/domain/model/BaseEntity.java:20-22 | an entity without an identifier equals only itself, in both directions |
| DomainModel.EntityEqualityIsEquivalence | common-domain/src/main/java/com/lxp/common/domain/model/BaseEntity.java:14-25 | entity equality is symmetric and transitive when identifier equality is |

## Left out

- Transactions, the thread-safety of the concurrent maps, `@Async` delivery and real sleeping and
  interruption are framework behaviour and are not modelled; a sleep is a log entry.
- Reflection and bean discovery: the handler beans and their resolved first type argument are
  given as a sequence in enumeration order.
- Handler invocation: `handle` is a parameter returning the handler's result or exception as a
  value; what a handler does is not part of this model.
- `Retryable.retryFor` is never read by the interceptor and has no meaning here.
- Persistence.OutboxEvent.MarkAsFailed: retryCount is a `nat`; the `int` field's wrap-around after
  2^31 - 1 failures is not modelled.
- The random `eventId` and every `LocalDateTime.now()` reading are arguments; the ORM-assigned
  `id`, `createdAt` and `updatedAt` of the soft-delete entity are not assigned by the model.
- DomainEvents.AggregateRoot.GetDomainEvents returns the buffer's current contents as a value; the
  unmodifiable live view, and writes through it throwing, are not modelled.
- OutPorts.DomainEventPublisher.PublishAndClearAll: the exact delivered sequence, and which
  buffers a thrown run clears and which it keeps, are stated only when no aggregate is listed
  twice; with repeats it states that a run that throws nothing leaves every buffer empty.
- Policy.ValidateAll, Cqrs.ReadModelProjector.constructor: a null rule in the validated list, and
  an updater whose `supportedEventType()` is null (a null key given to `ConcurrentHashMap.put`),
  throw `NullPointerException` in Java; rules and event types are never null in this model.
- OutPorts.DomainEventPublisher.Publish: publish is the port's abstract method; the model
  delivers an event or throws for the events a given predicate rejects.
- Pagination: a `PageRequest` is a record whose constructor validates; operations on a request
  require the record invariant (`Valid`) that the constructor establishes.
- Pagination.TotalPages: the double division and `Math.ceil` are modelled as exact integer
  ceiling division; rounding of totals beyond 2^53 in magnitude is not modelled. For a zero page
  size the result follows the double division (infinity or NaN) and the cast; for a negative one
  the contract states the ceiling of the exact quotient only when it lies strictly inside the int
  range, not the saturated ends.
- Pagination.By, Pagination.ByDirection: a null varargs array or a null property, and a null sort
  given to a request, throw or propagate in Java and are not modelled.
- Pagination.Page.GetNumberOfElements, Pagination.Slice.GetNumberOfElements: the size is a `nat`;
  a list longer than the largest int is not modelled.
- Pagination.Sort.And: `ArrayList` copying and `addAll` are modelled as sequence concatenation.
- DomainErrors: the exception's cause (the three-argument constructor) is not modelled.
- ExceptionHandling.ToUpperAscii: `toUpperCase` is modelled on ASCII letters only; locale-specific
  and non-ASCII case mappings are not modelled.
- ExceptionHandling.HandleDomainException: the `ResponseEntity` wrapper and the response's
  clock reading are not modelled beyond carrying the status and a given timestamp.
- DomainModel.ValueObject.Equals, DomainModel.BaseEntity.Equals: a component's or an identifier's
  equals is a given function; that it obeys Java's equals contract is a precondition of the
  lemmas that need it, not an assumption of the model.

## Code and design notes

- A PUBLISHED outbox row is not terminal: no mark method checks the current status
  (`Persistence.PublishedIsNotTerminal`).
- Several matching handler beans are not reported as ambiguous: the first one enumerated wins
  (`Cqrs.FirstMatchWins`).
- `next()` on a request at the largest page number overflows to a negative number, and the
  constructor throws "Page number must not be negative" (`Pagination.Next`).
- `ValueObject.equals` is not symmetric in general: a null component on the left against a
  non-null one on the right is unequal, while the reverse asks the component's equals about null.
  The model keeps this asymmetry and proves symmetry under the component contract
  (`DomainModel.ValueEqualitySymmetric`).
