/** The cqrs package: the command and query buses, which resolve a handler by the exact
    runtime class of the message and memoise it, and the read-model projector, which routes
    domain events to updaters by exact class. */
module Cqrs {
  import opened Common

  /** A handler bean, in the order the container enumerates them, with the first type argument
      resolved for its handler interface (None when the resolver finds none). */
  datatype Bean<+H> = Bean(typeArg: Option<TypeTag>, handler: H)

  predicate Handles<H>(b: Bean<H>, t: TypeTag)
  {
    b.typeArg == Some(t)
  }

  /** findHandler: the first bean whose first type argument equals the class exactly. */
  function FindHandler<H>(beans: seq<Bean<H>>, t: TypeTag): (r: Option<H>)
    ensures r.None? <==> forall i :: 0 <= i < |beans| ==> !Handles(beans[i], t)
    ensures r.Some? ==> exists i :: 0 <= i < |beans| && Handles(beans[i], t) && beans[i].handler == r.value &&
                                    forall j :: 0 <= j < i ==> !Handles(beans[j], t)
  {
    if beans == [] then None
    else if Handles(beans[0], t) then Some(beans[0].handler)
    else
      var r := FindHandler(beans[1..], t);
      assert forall i :: 1 <= i < |beans| ==> beans[i] == beans[1..][i - 1];
      r
  }

  /** Several matching handlers are no error: the one enumerated first is chosen. */
  lemma {:induction false} FirstMatchWins<H>(beans: seq<Bean<H>>, t: TypeTag, k: nat)
    requires k < |beans| && Handles(beans[k], t)
    requires forall j :: 0 <= j < k ==> !Handles(beans[j], t)
    ensures FindHandler(beans, t) == Some(beans[k].handler)
  {
    if k > 0 {
      FirstMatchWins(beans[1..], t, k - 1);
    }
  }

  /** Map.computeIfAbsent(t, findHandler): the cached handler if there is one, otherwise the
      search, whose result is stored; a failed search throws and stores nothing. */
  function Resolve<H>(cache: map<TypeTag, H>, beans: seq<Bean<H>>, t: TypeTag): (r: (Option<H>, map<TypeTag, H>))
    ensures t in cache ==> r == (Some(cache[t]), cache)
    ensures t !in cache ==> r.0 == FindHandler(beans, t)
    ensures r.0.None? ==> r.1 == cache
    ensures r.0.Some? ==> t in r.1 && r.1 == cache[t := r.0.value]
    ensures forall k :: k in cache ==> k in r.1 && r.1[k] == cache[k]
  {
    if t in cache then (Some(cache[t]), cache)
    else match FindHandler(beans, t)
      case None => (None, cache)
      case Some(h) => (Some(h), cache[t := h])
  }

  /** Every cached handler is the one the search would find. */
  ghost predicate Consistent<H>(cache: map<TypeTag, H>, beans: seq<Bean<H>>)
  {
    forall t :: t in cache ==> FindHandler(beans, t) == Some(cache[t])
  }

  /** The cache never changes which handler is chosen: cold or warm, resolution agrees with the
      search, and the cache stays consistent. */
  lemma ResolveAgreesWithSearch<H>(cache: map<TypeTag, H>, beans: seq<Bean<H>>, t: TypeTag)
    requires Consistent(cache, beans)
    ensures Resolve(cache, beans, t).0 == FindHandler(beans, t)
    ensures Consistent(Resolve(cache, beans, t).1, beans)
  {
  }

  /** A second resolution of the same class finds the entry the first stored and changes nothing. */
  lemma ResolveIsStable<H>(cache: map<TypeTag, H>, beans: seq<Bean<H>>, t: TypeTag)
    ensures var (h, cache') := Resolve(cache, beans, t);
      Resolve(cache', beans, t) == (h, cache')
  {
  }

  /** What a dispatch did: thrown IllegalArgumentException, or the handler it invoked once and what
      that invocation produced (a value or the handler's own exception), passed back unchanged. */
  datatype Dispatched<+H, +R> = NoHandler(error: IllegalArgument) | Handled(handler: H, result: R)

  /** One dispatch through a cache: resolve, then invoke the handler once. */
  function DispatchThrough<H, B, R>(found: Option<H>, command: Instance<B>, handle: (H, Instance<B>) -> R,
                                    noHandlerMessage: string): Dispatched<H, R>
  {
    match found
    case None => NoHandler(IllegalArgument(noHandlerMessage + command.runtimeClass))
    case Some(h) => Handled(h, handle(h, command))
  }

  /** SimpleCommandBus: one cache for plain command handlers, a separate one for handlers with a
      result. The two bean lists are what the container enumerates for each handler interface. */
  class SimpleCommandBus<H, B> {
    const commandHandlers: seq<Bean<H>>
    const resultHandlers: seq<Bean<H>>
    var handlerCache: map<TypeTag, H>
    var resultHandlerCache: map<TypeTag, H>

    ghost predicate Valid()
      reads this
    {
      Consistent(handlerCache, commandHandlers) && Consistent(resultHandlerCache, resultHandlers)
    }

    constructor (commandHandlers: seq<Bean<H>>, resultHandlers: seq<Bean<H>>)
      ensures Valid()
      ensures this.commandHandlers == commandHandlers && this.resultHandlers == resultHandlers
      ensures handlerCache == map[] && resultHandlerCache == map[]
    {
      this.commandHandlers := commandHandlers;
      this.resultHandlers := resultHandlers;
      handlerCache := map[];
      resultHandlerCache := map[];
    }

    /** dispatch: handle is what invoking a handler on the command produces. */
    method Dispatch<R>(command: Instance<B>, handle: (H, Instance<B>) -> R) returns (d: Dispatched<H, R>)
      requires Valid()
      modifies this`handlerCache
      ensures Valid()
      ensures (if d.Handled? then Some(d.handler) else None, handlerCache)
           == Resolve(old(handlerCache), commandHandlers, command.runtimeClass)
      ensures d == DispatchThrough(FindHandler(commandHandlers, command.runtimeClass), command, handle,
                                   "No handler found for command: ")
    {
      var r := Resolve(handlerCache, commandHandlers, command.runtimeClass);
      ResolveAgreesWithSearch(handlerCache, commandHandlers, command.runtimeClass);
      handlerCache := r.1;
      d := DispatchThrough(r.0, command, handle, "No handler found for command: ");
    }

    /** dispatchWithResult: the handler's return value (or exception) comes back unchanged. */
    method DispatchWithResult<R>(command: Instance<B>, handle: (H, Instance<B>) -> R) returns (d: Dispatched<H, R>)
      requires Valid()
      modifies this`resultHandlerCache
      ensures Valid()
      ensures (if d.Handled? then Some(d.handler) else None, resultHandlerCache)
           == Resolve(old(resultHandlerCache), resultHandlers, command.runtimeClass)
      ensures d == DispatchThrough(FindHandler(resultHandlers, command.runtimeClass), command, handle,
                                   "No result handler found for command: ")
    {
      var r := Resolve(resultHandlerCache, resultHandlers, command.runtimeClass);
      ResolveAgreesWithSearch(resultHandlerCache, resultHandlers, command.runtimeClass);
      resultHandlerCache := r.1;
      d := DispatchThrough(r.0, command, handle, "No result handler found for command: ");
    }
  }

  /** SimpleQueryBus: one cache of query handlers. */
  class SimpleQueryBus<H, B> {
    const queryHandlers: seq<Bean<H>>
    var handlerCache: map<TypeTag, H>

    ghost predicate Valid()
      reads this
    {
      Consistent(handlerCache, queryHandlers)
    }

    constructor (queryHandlers: seq<Bean<H>>)
      ensures Valid() && this.queryHandlers == queryHandlers && handlerCache == map[]
    {
      this.queryHandlers := queryHandlers;
      handlerCache := map[];
    }

    method Dispatch<R>(query: Instance<B>, handle: (H, Instance<B>) -> R) returns (d: Dispatched<H, R>)
      requires Valid()
      modifies this`handlerCache
      ensures Valid()
      ensures (if d.Handled? then Some(d.handler) else None, handlerCache)
           == Resolve(old(handlerCache), queryHandlers, query.runtimeClass)
      ensures d == DispatchThrough(FindHandler(queryHandlers, query.runtimeClass), query, handle,
                                   "No handler found for query: ")
    {
      var r := Resolve(handlerCache, queryHandlers, query.runtimeClass);
      ResolveAgreesWithSearch(handlerCache, queryHandlers, query.runtimeClass);
      handlerCache := r.1;
      d := DispatchThrough(r.0, query, handle, "No handler found for query: ");
    }
  }

  /** A read-model updater and the event class it declares. */
  datatype Registration<+U> = Registration(eventType: TypeTag, updater: U)

  /** The routing table built by putting each registration in list order: a later registration
      for the same class replaces an earlier one. */
  function UpdaterTable<U>(updaters: seq<Registration<U>>): map<TypeTag, U>
  {
    if updaters == [] then map[]
    else
      var last := updaters[|updaters| - 1];
      UpdaterTable(updaters[..|updaters| - 1])[last.eventType := last.updater]
  }

  /** A class is routed iff some updater declares it. */
  lemma {:induction false} RoutedIffDeclared<U>(updaters: seq<Registration<U>>, t: TypeTag)
    ensures t in UpdaterTable(updaters) <==> exists i :: 0 <= i < |updaters| && updaters[i].eventType == t
  {
    if updaters != [] {
      var n := |updaters| - 1;
      var init := updaters[..n];
      RoutedIffDeclared(init, t);
      if updaters[n].eventType != t && t in UpdaterTable(updaters) {
        var i :| 0 <= i < n && init[i].eventType == t;
        assert updaters[i] == init[i];
      }
      if t !in UpdaterTable(updaters) {
        forall i | 0 <= i < |updaters|
          ensures updaters[i].eventType != t
        {
          if i < n {
            assert updaters[i] == init[i];
          }
        }
      }
    }
  }

  /** A routed class goes to the LAST updater in the list that declares it. */
  lemma {:induction false} LastRegistrationWins<U>(updaters: seq<Registration<U>>, t: TypeTag)
    requires t in UpdaterTable(updaters)
    ensures exists i :: 0 <= i < |updaters| && updaters[i].eventType == t &&
                        UpdaterTable(updaters)[t] == updaters[i].updater &&
                        forall j :: i < j < |updaters| ==> updaters[j].eventType != t
  {
    var n := |updaters| - 1;
    if updaters[n].eventType == t {
      assert UpdaterTable(updaters)[t] == updaters[n].updater;
    } else {
      var init := updaters[..n];
      assert t in UpdaterTable(init);
      LastRegistrationWins(init, t);
      var i :| 0 <= i < n && init[i].eventType == t &&
               UpdaterTable(init)[t] == init[i].updater &&
               forall j :: i < j < n ==> init[j].eventType != t;
      assert updaters[i] == init[i];
      forall j | i < j < |updaters|
        ensures updaters[j].eventType != t
      {
        if j < n {
          assert updaters[j] == init[j];
        }
      }
    }
  }

  /** ReadModelProjector: a routing table from exact event class to updater, built once from the
      updater list it was given. */
  class ReadModelProjector<U> {
    var updaterMap: map<TypeTag, U>
    ghost const registrations: seq<Registration<U>>

    ghost predicate Valid()
      reads this
    {
      updaterMap == UpdaterTable(registrations)
    }

    constructor (updaters: seq<Registration<U>>)
      ensures Valid() && registrations == updaters
    {
      registrations := updaters;
      updaterMap := map[];
      new;
      for i := 0 to |updaters|
        invariant updaterMap == UpdaterTable(updaters[..i])
      {
        assert updaters[..i + 1][..i] == updaters[..i];
        updaterMap := updaterMap[updaters[i].eventType := updaters[i].updater];
      }
      assert updaters[..|updaters|] == updaters;
    }

    /** onDomainEvent: the updater registered for the event's exact class, the last one in the
        list that declares it, is invoked once (returned here); an event of any class no updater
        declares, a subclass of a declared one included, is ignored. The table is only read. */
    method OnDomainEvent<B>(event: Instance<B>) returns (invoked: Option<U>)
      requires Valid()
      ensures invoked.Some? <==> exists i :: 0 <= i < |registrations| && registrations[i].eventType == event.runtimeClass
      ensures invoked.Some? ==>
        exists i :: 0 <= i < |registrations| && registrations[i].eventType == event.runtimeClass &&
                    invoked.value == registrations[i].updater &&
                    forall j :: i < j < |registrations| ==> registrations[j].eventType != event.runtimeClass
    {
      RoutedIffDeclared(registrations, event.runtimeClass);
      if event.runtimeClass in updaterMap {
        LastRegistrationWins(registrations, event.runtimeClass);
        invoked := Some(updaterMap[event.runtimeClass]);
      } else {
        invoked := None;
      }
    }
  }
}
