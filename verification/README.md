# Event dispatcher registry

A Dafny model of the in-memory event dispatcher of the domain-events exercise
(`EventDispatcher`). The dispatcher keeps a registry from event-type names to
ordered lists of handlers and offers `register`, `unregister`,
`unregisterAll`, `notify` and the `getEventHandlers` accessor.

The model is of the behaviour of the class in
`src/domain/event/@shared/event-dispatcher.ts`, whose source is not
available. What the model states about it comes from its test suite,
`src/domain/event/@shared/event-dispatcher.spec.ts`. Where the tests do not
pin a behaviour down, the model assumes one, and these assumptions are not
things the tests assert:

- `unregister` removes only the first occurrence of the handler;
- `notify` dispatches in list order, once per list element, passing the same
  event to every handler (the tests only check that each spy was called);
- `unregisterAll` drops every key (the tests check one key).

The model is functional:

- `EventDispatcher.Dispatcher<H>` wraps `map<string, seq<H>>`; `H` is an
  opaque handler identity and `Event<P>` pairs an event-type name with an
  opaque payload.
- `Register`, `Unregister` and `UnregisterAll` return the next dispatcher.
- `Lookup` is the `getEventHandlers[name]` read: `None` is `undefined`,
  `Some([])` a defined but empty entry. The model keeps this distinction
  between an absent key and a present empty list.
- `Notify` returns the trace of `handle(event)` calls, in order, instead of
  performing them.
- `Op`, `Apply` and `Run` replay any sequence of registry operations, so that
  invariants of the whole state machine can be stated.

`DispatcherScenarios` restates each test of the suite for arbitrary handlers,
names and events.

## Model

| member | source | states |
|---|---|---|
| EventDispatcher.New | src/domain/event/@shared/event-dispatcher.spec.ts:13 | a freshly constructed dispatcher has no defined entry for any name (names are plain map keys; inherited JavaScript object properties are not modelled) |
| EventDispatcher.Lookup | src/domain/event/@shared/event-dispatcher.spec.ts:18-20 | the accessor's entry is defined exactly for registered keys; a defined entry is the list `notify` dispatches to; an undefined entry dispatches to nobody |
| EventDispatcher.Register | src/domain/event/@shared/event-dispatcher.spec.ts:98-104 | register leaves the entry defined, one longer, with the old handlers as its prefix and the new handler last; the key set grows by the name only; other entries are unchanged |
| EventDispatcher.RemoveFirst | src/domain/event/@shared/event-dispatcher.spec.ts:31-33 | removing a present handler shortens the list by one and takes out exactly one occurrence (multiset); an absent handler leaves the list unchanged |
| EventDispatcher.RemoveFirstTakesFirstOccurrence | src/domain/event/@shared/event-dispatcher.spec.ts:31 | the occurrence removed is the first one, with everything before and after it kept in order |
| EventDispatcher.Unregister | src/domain/event/@shared/event-dispatcher.spec.ts:31-33 | unregister never adds or drops a key; a present handler shortens its entry by one; an unknown name or unregistered handler is a no-op; other entries are unchanged |
| EventDispatcher.UnregisterAll | src/domain/event/@shared/event-dispatcher.spec.ts:44-46 | after unregisterAll every entry is undefined |
| EventDispatcher.Calls | src/domain/event/@shared/event-dispatcher.spec.ts:178-182 | dispatching to a list invokes each handler at its own position with the same event, one call per list element |
| EventDispatcher.Notify | src/domain/event/@shared/event-dispatcher.spec.ts:54-68 | notify makes one call per handler of the event's entry, in list order, each with the notified event |
| EventDispatcher.NotifyInvokesExactlyTheEntry | src/domain/event/@shared/event-dispatcher.spec.ts:178-182 | the handlers notify invokes, in order, are exactly the entry for the event's name, and every call passes the notified event |
| EventDispatcher.NotifyWithoutHandlers | src/domain/event/@shared/event-dispatcher.spec.ts:66-68 | an event whose name has an undefined or empty entry invokes nothing |
| EventDispatcher.NotifyAfterRegister | src/domain/event/@shared/event-dispatcher.spec.ts:163-182 | after register, notify on that name performs the old calls followed by one call on the new handler; notify on other names is unaffected |
| EventDispatcher.RemoveFirstOfAppended | src/domain/event/@shared/event-dispatcher.spec.ts:27-33 | removing a handler just appended (and present nowhere else) restores the list |
| EventDispatcher.UnregisterUndoesRegister | src/domain/event/@shared/event-dispatcher.spec.ts:27-33 | unregister undoes register of a new handler: the entry reads as before, and a previously undefined entry becomes defined and empty, so the dispatcher differs from the one before register |
| EventDispatcher.UnregisterAllClears | src/domain/event/@shared/event-dispatcher.spec.ts:44-46 | unregisterAll is idempotent, yields the fresh dispatcher, and afterwards notify invokes nothing |
| EventDispatcher.ApplyCountBound | src/domain/event/@shared/event-dispatcher.spec.ts:98-104 | one operation raises a handler's occurrence count in an entry by at most one, and only when it registers that handler under that name |
| EventDispatcher.RunCountBound | src/domain/event/@shared/event-dispatcher.spec.ts:98-104 | after any operation sequence a handler occurs in an entry at most its earlier count plus its registrations under that name (no invented handlers) |
| EventDispatcher.DefinedEntryWasRegistered | src/domain/event/@shared/event-dispatcher.spec.ts:36-47 | starting from an undefined entry, a defined entry after any operation sequence implies some operation registered a handler for that name |
| DispatcherScenarios.RegisterOnFreshDispatcher | src/domain/event/@shared/event-dispatcher.spec.ts:16-20 | register on a fresh dispatcher defines the entry as the one-element list of that handler |
| DispatcherScenarios.RegisterTwoKeepsOrder | src/domain/event/@shared/event-dispatcher.spec.ts:98-104 | two registrations under one name give the entry `[h1, h2]` |
| DispatcherScenarios.UnregisterOnlyHandlerLeavesEmptyEntry | src/domain/event/@shared/event-dispatcher.spec.ts:27-33 | the entry reads `[h]` before and a defined empty list after unregistering its only handler |
| DispatcherScenarios.UnregisterAllMakesEntryUndefined | src/domain/event/@shared/event-dispatcher.spec.ts:40-46 | the entry reads `[h]` after register and is undefined after unregisterAll |
| DispatcherScenarios.EmptyEntryIsNotUndefinedEntry | src/domain/event/@shared/event-dispatcher.spec.ts:31-46 | the accessor tells an emptied entry from a cleared one, while notify invokes nothing for either |
| DispatcherScenarios.NotifyInvokesRegisteredHandler | src/domain/event/@shared/event-dispatcher.spec.ts:54-68 | notify with an event of the registered name invokes the registered handler once, with that event |
| DispatcherScenarios.NotifyTwoHandlersTwice | src/domain/event/@shared/event-dispatcher.spec.ts:163-182 | with two handlers under one name, two notifications invoke both handlers per call, in order, with the respective event |

## Left out

- The source of `src/domain/event/@shared/event-dispatcher.ts` is not available; the model describes that class's behaviour as its test suite asserts it, plus the assumptions listed at the top of this file, and says nothing about its code.
- Notify: the order of calls, one call per list element, and the same event passed to every handler are assumptions about the unseen implementation; the tests at event-dispatcher.spec.ts lines 66-68, 132-134, 151-153, 178-182 and 204-206 only check that each handler was called.
- UnregisterAll: dropping every key is an assumption; the test at lines 44-46 checks only that the one registered key becomes undefined.
- Event-type names are plain map keys: the registry read by `getEventHandlers` is a plain JavaScript object, whose inherited properties (`constructor`, `toString`, `__proto__`, ...) are defined on a fresh dispatcher; these are not modelled, so in the model every name starts undefined and every register appends.
- Concrete handlers (`SendEmailWhenProductIsCreatedHandler`, `EnviaConsoleLog*Handler`): their console and e-mail side effects are opaque to the dispatcher, so handlers are identities only.
- Event payloads and creation timestamps (including the floating-point price and the nested address): the payload is an opaque type parameter.
- How the event's type name is derived from the event object: `Event.name` is given directly.
- Jest spies and `toMatchObject`: replaced by the returned call trace and plain equality of handler identities.
- Exceptions raised by a handler and their propagation out of `notify`: not exercised by the tests, so `Notify` always completes the whole trace.
- Mutation in place and the aliasing of the map returned by `getEventHandlers`: the model is value-based, and "live state" is the `Lookup` of the current dispatcher value.
- Unregister: states only that a present handler shortens the entry by one and that an unknown name or handler changes nothing; the suite exercises only the single-handler case.
- RemoveFirst: removing the first occurrence is the model's choice of which occurrence goes; the suite does not tell occurrences apart, so RemoveFirstTakesFirstOccurrence is a property of the model rather than of the tests.
