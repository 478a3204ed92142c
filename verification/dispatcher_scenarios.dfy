/**
  The scenarios of the dispatcher's test suite, each stated for arbitrary
  handlers, event names and events rather than for the suite's concrete
  handler classes and payloads.
 */
module DispatcherScenarios {
  import opened EventDispatcher

  /** Registering a handler on a fresh dispatcher defines the entry as exactly that handler. */
  lemma RegisterOnFreshDispatcher<H>(name: string, h: H)
    ensures Lookup(Register(New(), name, h), name) == Some([h])
  {
  }

  /** Two registrations under one name are kept in registration order. */
  lemma RegisterTwoKeepsOrder<H>(name: string, h1: H, h2: H)
    ensures Lookup(Register(Register(New(), name, h1), name, h2), name) == Some([h1, h2])
  {
    var once := Register(New(), name, h1);
    assert Handlers(once, name) == [h1];
    var twice := Register(once, name, h2);
    assert Handlers(twice, name) == [h1] + [h2];
    assert Handlers(twice, name) == [h1, h2];
    assert Lookup(twice, name) == Some([h1, h2]);
  }

  /**
    Unregistering the only handler leaves the entry defined and empty; reading
    the entry before and after shows the live state.
   */
  lemma UnregisterOnlyHandlerLeavesEmptyEntry<H>(name: string, h: H)
    ensures Lookup(Register(New(), name, h), name) == Some([h])
    ensures Lookup(Unregister(Register(New(), name, h), name, h), name) == Some([])
  {
  }

  /** After `unregisterAll` a previously registered entry is undefined. */
  lemma UnregisterAllMakesEntryUndefined<H>(name: string, h: H)
    ensures Lookup(Register(New(), name, h), name) == Some([h])
    ensures Lookup(UnregisterAll(Register(New(), name, h)), name) == None
  {
  }

  /**
    The two ways of losing a handler are told apart by the accessor (an empty
    entry against an undefined one) but not by `notify`, which invokes nothing
    in either case.
   */
  lemma EmptyEntryIsNotUndefinedEntry<H, P>(h: H, e: Event<P>)
    ensures Lookup(Unregister(Register(New(), e.name, h), e.name, h), e.name)
         != Lookup(UnregisterAll(Register(New(), e.name, h)), e.name)
    ensures Notify(Unregister(Register(New(), e.name, h), e.name, h), e) == []
    ensures Notify(UnregisterAll(Register(New(), e.name, h)), e) == []
  {
  }

  /** Notifying an event whose type name is the registered name invokes the handler once, with that event. */
  lemma NotifyInvokesRegisteredHandler<H, P>(h: H, e: Event<P>)
    ensures Notify(Register(New(), e.name, h), e) == [(h, e)]
  {
  }

  /**
    With two handlers registered under one name, two successive notifications
    each invoke both handlers in registration order, with the respective event.
   */
  lemma NotifyTwoHandlersTwice<H, P>(h1: H, h2: H, e1: Event<P>, e2: Event<P>)
    requires e1.name == e2.name
    ensures var d := Register(Register(New(), e1.name, h1), e1.name, h2);
      Notify(d, e1) + Notify(d, e2) == [(h1, e1), (h2, e1), (h1, e2), (h2, e2)]
  {
  }
}
