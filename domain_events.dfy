/** The aggregate root's buffer of domain events raised since it was last published. */
module DomainEvents {
  import opened Common

  class AggregateRoot<E> {
    var domainEvents: seq<E>

    constructor ()
      ensures domainEvents == []
    {
      domainEvents := [];
    }

    /** registerEvent: a null event is rejected and the buffer is left as it was; any other event
        is appended after the ones already registered. */
    method RegisterEvent(event: Option<E>) returns (r: Outcome<IllegalArgument>)
      modifies this`domainEvents
      ensures event.None? ==> r == Fail(IllegalArgument("Domain event must not be null"))
      ensures event.None? ==> domainEvents == old(domainEvents)
      ensures event.Some? ==> r == Pass && domainEvents == old(domainEvents) + [event.value]
    {
      if event.None? {
        return Fail(IllegalArgument("Domain event must not be null"));
      }
      domainEvents := domainEvents + [event.value];
      r := Pass;
    }

    /** getDomainEvents: the registered events, oldest first. */
    function GetDomainEvents(): seq<E>
      reads this
    {
      domainEvents
    }

    method ClearDomainEvents()
      modifies this`domainEvents
      ensures domainEvents == []
    {
      domainEvents := [];
    }
  }
}
