/** Outbound ports with behaviour of their own: the domain-event publisher's default methods and
    the domain mapper's list conversions. */
module OutPorts {
  import opened Common
  import opened DomainEvents

  /** The position of the first event publish rejects, or the length when it rejects none. */
  function FirstRejected<E>(events: seq<E>, rejects: E -> bool): (k: nat)
    ensures k <= |events|
    ensures k < |events| ==> rejects(events[k])
  {
    if events == [] || rejects(events[0]) then 0
    else FirstRejected(events[1..], rejects) + 1
  }

  /** Every event before the first rejected one is accepted. */
  lemma {:induction false} AcceptedBeforeFirstRejected<E>(events: seq<E>, rejects: E -> bool)
    ensures forall j :: 0 <= j < FirstRejected(events, rejects) ==> !rejects(events[j])
  {
    if events != [] && !rejects(events[0]) {
      AcceptedBeforeFirstRejected(events[1..], rejects);
      assert forall j :: 1 <= j < |events| ==> events[j] == events[1..][j - 1];
    }
  }

  /** The events publish accepts, in order, up to (not including) the first one it rejects. */
  function Delivered<E>(events: seq<E>, rejects: E -> bool): seq<E>
  {
    events[..FirstRejected(events, rejects)]
  }

  /** Pass when publish accepts every event, else the first event it rejects. */
  function Rejected<E>(events: seq<E>, rejects: E -> bool): (r: Outcome<E>)
    ensures r.Fail? ==> r.error in events && rejects(r.error)
  {
    var k := FirstRejected(events, rejects);
    if k == |events| then Pass else Fail(events[k])
  }

  /** Publishing a list goes through exactly when no event of it is rejected. */
  lemma RejectedPassIff<E>(events: seq<E>, rejects: E -> bool)
    ensures Rejected(events, rejects).Pass? <==> forall i :: 0 <= i < |events| ==> !rejects(events[i])
  {
    AcceptedBeforeFirstRejected(events, rejects);
  }

  /** When nothing is rejected, everything is delivered. */
  lemma AllDelivered<E>(events: seq<E>, rejects: E -> bool)
    requires Rejected(events, rejects).Pass?
    ensures Delivered(events, rejects) == events
  {
  }

  /** Publishing a concatenation: the second list is reached only if the first goes through. */
  lemma {:induction false} DeliveredAppend<E>(xs: seq<E>, ys: seq<E>, rejects: E -> bool)
    ensures Rejected(xs, rejects).Pass? ==>
      Delivered(xs + ys, rejects) == xs + Delivered(ys, rejects) && Rejected(xs + ys, rejects) == Rejected(ys, rejects)
    ensures Rejected(xs, rejects).Fail? ==>
      Delivered(xs + ys, rejects) == Delivered(xs, rejects) && Rejected(xs + ys, rejects) == Rejected(xs, rejects)
  {
    if xs != [] {
      assert (xs + ys)[0] == xs[0];
      assert (xs + ys)[1..] == xs[1..] + ys;
      DeliveredAppend(xs[1..], ys, rejects);
    } else {
      assert xs + ys == ys;
    }
  }

  /** The events of each list, the lists one after another. */
  function Flatten<E>(lists: seq<seq<E>>): seq<E>
  {
    if lists == [] then [] else lists[0] + Flatten(lists[1..])
  }

  /** Publishing the lists one after another, each with publishAll, stopping at the first list
      that throws: the events delivered and how the run ends. */
  function PublishLists<E>(lists: seq<seq<E>>, rejects: E -> bool): (r: (seq<E>, Outcome<E>))
    ensures r.1.Fail? ==> rejects(r.1.error)
  {
    if lists == [] then ([], Pass)
    else if Rejected(lists[0], rejects).Fail? then (Delivered(lists[0], rejects), Rejected(lists[0], rejects))
    else
      var rest := PublishLists(lists[1..], rejects);
      (lists[0] + rest.0, rest.1)
  }

  lemma AppendAssociative<T>(a: seq<T>, b: seq<T>, c: seq<T>)
    ensures (a + b) + c == a + (b + c)
  {
  }

  /** Publishing the lists from the i-th on: the i-th list first, then, if it goes through, the rest. */
  lemma PublishListsStep<E>(lists: seq<seq<E>>, i: nat, rejects: E -> bool)
    requires i < |lists|
    ensures Rejected(lists[i], rejects).Fail? ==>
      PublishLists(lists[i..], rejects) == (Delivered(lists[i], rejects), Rejected(lists[i], rejects))
    ensures Rejected(lists[i], rejects).Pass? ==>
      PublishLists(lists[i..], rejects).0 == lists[i] + PublishLists(lists[i + 1..], rejects).0 &&
      PublishLists(lists[i..], rejects).1 == PublishLists(lists[i + 1..], rejects).1 &&
      Delivered(lists[i], rejects) == lists[i]
  {
    assert lists[i..][0] == lists[i];
    assert lists[i..][1..] == lists[i + 1..];
    if Rejected(lists[i], rejects).Pass? {
      AllDelivered(lists[i], rejects);
    }
  }

  /** Publishing the lists one by one delivers what publishing their concatenation in one go
      delivers, and ends the same way. */
  lemma {:induction false} PublishListsIsPublishAll<E>(lists: seq<seq<E>>, rejects: E -> bool)
    ensures PublishLists(lists, rejects) == (Delivered(Flatten(lists), rejects), Rejected(Flatten(lists), rejects))
  {
    if lists != [] {
      DeliveredAppend(lists[0], Flatten(lists[1..]), rejects);
      if Rejected(lists[0], rejects).Pass? {
        PublishListsIsPublishAll(lists[1..], rejects);
      }
    }
  }

  /** No element occurs twice. */
  predicate Distinct<T(==)>(s: seq<T>)
  {
    forall i, j :: 0 <= i < j < |s| ==> s[i] != s[j]
  }

  lemma DistinctAt<T>(s: seq<T>, i: nat, j: nat)
    requires Distinct(s) && i < j < |s|
    ensures s[i] != s[j]
  {
  }

  /** Each aggregate's current event buffer, in aggregate order. */
  ghost function EventLists<E>(aggregates: seq<AggregateRoot<E>>): (r: seq<seq<E>>)
    reads set a | a in aggregates
    ensures |r| == |aggregates| && forall i :: 0 <= i < |r| ==> r[i] == aggregates[i].domainEvents
  {
    seq(|aggregates|, i reads aggregates requires 0 <= i < |aggregates| => aggregates[i].domainEvents)
  }

  /** How a thrown publishAndClearAll leaves the buffers, given the lists they held before: the
      run stopped at aggregate k, whose events contain the first rejected one, after every earlier
      aggregate published all of its events and was cleared; aggregate k and every later one
      keep their events. */
  ghost predicate StoppedAt<E>(aggregates: seq<AggregateRoot<E>>, lists: seq<seq<E>>, rejects: E -> bool, k: int)
    reads set a | a in aggregates
  {
    |lists| == |aggregates| && 0 <= k < |aggregates| &&
    Rejected(lists[k], rejects).Fail? &&
    (forall j :: 0 <= j < k ==> Rejected(lists[j], rejects).Pass? && aggregates[j].domainEvents == []) &&
    (forall j :: k <= j < |aggregates| ==> aggregates[j].domainEvents == lists[j])
  }

  /** A domain-event publisher: publish is the port's one abstract method. Its effect is the
      sequence of events it has delivered; rejects says which events make it throw (delivering
      nothing), as the container-backed implementation does for null. */
  class DomainEventPublisher<E> {
    var published: seq<E>
    const rejects: E -> bool

    constructor (rejects: E -> bool)
      ensures published == [] && this.rejects == rejects
    {
      published := [];
      this.rejects := rejects;
    }

    method Publish(event: E) returns (r: Outcome<E>)
      modifies this`published
      ensures rejects(event) ==> r == Fail(event) && published == old(published)
      ensures !rejects(event) ==> r == Pass && published == old(published) + [event]
    {
      if rejects(event) {
        return Fail(event);
      }
      published := published + [event];
      r := Pass;
    }

    /** publishAll: publish each event in order; the first exception stops the loop and propagates. */
    method PublishAll(events: seq<E>) returns (r: Outcome<E>)
      modifies this`published
      ensures published == old(published) + Delivered(events, rejects)
      ensures r == Rejected(events, rejects)
    {
      for i := 0 to |events|
        invariant published == old(published) + events[..i]
        invariant forall j :: 0 <= j < i ==> !rejects(events[j])
      {
        r := Publish(events[i]);
        if r.Fail? {
          RejectedPassIff(events[..i], rejects);
          assert events[..i + 1] == events[..i] + [events[i]];
          DeliveredAppend(events[..i], events[i..], rejects);
          assert events[..i] + events[i..] == events;
          return;
        }
      }
      assert events[..|events|] == events;
      RejectedPassIff(events, rejects);
      r := Pass;
    }

    /** publishAndClear: the aggregate's events are published in order and then cleared; when a
        publish throws, the buffer is left as it was. */
    method PublishAndClear(aggregate: AggregateRoot<E>) returns (r: Outcome<E>)
      modifies this`published, aggregate`domainEvents
      ensures published == old(published) + Delivered(old(aggregate.domainEvents), rejects)
      ensures r == Rejected(old(aggregate.domainEvents), rejects)
      ensures aggregate.domainEvents == if r.Pass? then [] else old(aggregate.domainEvents)
    {
      var events := aggregate.GetDomainEvents();
      r := PublishAll(events);
      if r.Pass? {
        aggregate.ClearDomainEvents();
      }
    }

    /** publishAndClearAll: the aggregates in order, stopping at the first exception. Every buffer
        is empty after a run that throws nothing; when no aggregate is listed twice, the delivered
        events are all the aggregates' events concatenated, up to the first rejected one, and a
        thrown run leaves the buffers as StoppedAt says. */
    method PublishAndClearAll(aggregates: seq<AggregateRoot<E>>) returns (r: Outcome<E>)
      modifies this`published, set a | a in aggregates
      ensures r.Pass? ==> forall a :: a in aggregates ==> a.domainEvents == []
      ensures Distinct(aggregates) ==>
        published == old(published) + PublishLists(old(EventLists(aggregates)), rejects).0 &&
        r == PublishLists(old(EventLists(aggregates)), rejects).1
      ensures Distinct(aggregates) && r.Fail? ==>
        exists k :: StoppedAt(aggregates, old(EventLists(aggregates)), rejects, k)
    {
      ghost var lists := EventLists(aggregates);
      ghost var distinct := Distinct(aggregates);
      ghost var run := PublishLists(lists, rejects);
      for i := 0 to |aggregates|
        invariant forall j :: 0 <= j < i ==> aggregates[j].domainEvents == []
        invariant distinct ==> published + PublishLists(lists[i..], rejects).0 == old(published) + run.0
        invariant distinct ==> PublishLists(lists[i..], rejects).1 == run.1
        invariant distinct ==> forall j :: i <= j < |aggregates| ==> aggregates[j].domainEvents == lists[j]
        invariant distinct ==> forall j :: 0 <= j < i ==> Rejected(lists[j], rejects).Pass?
      {
        ghost var before := published;
        r := PublishAndClear(aggregates[i]);
        if distinct {
          PublishListsStep(lists, i, rejects);
        }
        if r.Fail? {
          if distinct {
            forall j | 0 <= j < |aggregates| && j != i
              ensures aggregates[j] != aggregates[i]
            {
              if j < i { DistinctAt(aggregates, j, i); } else { DistinctAt(aggregates, i, j); }
            }
            assert StoppedAt(aggregates, lists, rejects, i);
          }
          return;
        }
        if distinct {
          AppendAssociative(before, lists[i], PublishLists(lists[i + 1..], rejects).0);
          assert forall j :: i < j < |aggregates| ==> aggregates[j] != aggregates[i] by {
            forall j | i < j < |aggregates|
              ensures aggregates[j] != aggregates[i]
            {
              DistinctAt(aggregates, i, j);
            }
          }
        }
      }
      r := Pass;
      if distinct {
        assert lists[|aggregates|..] == [];
      }
    }
  }

  /** toDomainList: null gives an empty list; otherwise each entity converted, in order. */
  function ToDomainList<E, D>(entities: Option<seq<E>>, toDomain: E -> D): (r: seq<D>)
    ensures entities.None? ==> r == []
    ensures entities.Some? ==> |r| == |entities.value|
    ensures entities.Some? ==> forall i :: 0 <= i < |r| ==> r[i] == toDomain(entities.value[i])
  {
    match entities
    case None => []
    case Some(es) => MapSeq(es, toDomain)
  }

  /** toEntityList: null gives an empty list; otherwise each domain object converted, in order. */
  function ToEntityList<D, E>(domains: Option<seq<D>>, toEntity: D -> E): (r: seq<E>)
    ensures domains.None? ==> r == []
    ensures domains.Some? ==> |r| == |domains.value|
    ensures domains.Some? ==> forall i :: 0 <= i < |r| ==> r[i] == toEntity(domains.value[i])
  {
    match domains
    case None => []
    case Some(ds) => MapSeq(ds, toEntity)
  }

  /** When toDomain undoes toEntity on every element, the list conversions round-trip. */
  lemma MapperRoundTrip<D, E>(ds: seq<D>, toEntity: D -> E, toDomain: E -> D)
    requires forall d :: d in ds ==> toDomain(toEntity(d)) == d
    ensures ToDomainList(Some(ToEntityList(Some(ds), toEntity)), toDomain) == ds
  {
    var r := ToDomainList(Some(ToEntityList(Some(ds), toEntity)), toDomain);
    assert forall i :: 0 <= i < |ds| ==> r[i] == toDomain(toEntity(ds[i])) && ds[i] in ds;
  }
}
