/**
  The in-memory event dispatcher of the domain-events exercise: a registry
  from event-type names to ordered lists of handlers, with `register`,
  `unregister`, `unregisterAll`, `notify` and the `getEventHandlers`
  accessor.

  The dispatcher is modelled as an immutable value: every mutating operation
  returns the next dispatcher, and `notify` returns the sequence of handler
  invocations it performs instead of performing them. Handlers are opaque
  identities (`H`), event payloads are opaque values (`P`).
 */
module EventDispatcher {

  /** `Some(v)` is a defined registry entry, `None` is JavaScript's `undefined`. */
  datatype Option<T> = None | Some(value: T)

  /** A domain event as the dispatcher sees it: its type name and an opaque payload. */
  datatype Event<P> = Event(name: string, payload: P)

  /** The registry: each event-type name maps to its handlers in registration order. */
  datatype Dispatcher<H> = Dispatcher(eventHandlers: map<string, seq<H>>)

  /** One invocation `handler.handle(event)` performed by `notify`. */
  type Call<H, P> = (H, Event<P>)

  /** `new EventDispatcher()`: no event type has an entry. */
  function New<H>(): (d: Dispatcher<H>)
    ensures forall name :: name !in d.eventHandlers
  {
    Dispatcher(map[])
  }

  /** `getEventHandlers[name]`: the live entry for `name`, or `None` when it is undefined. */
  function Lookup<H>(d: Dispatcher<H>, name: string): (r: Option<seq<H>>)
    ensures r.Some? <==> name in d.eventHandlers
    ensures r.Some? ==> r.value == Handlers(d, name)
    ensures r.None? ==> Handlers(d, name) == []
  {
    if name in d.eventHandlers then Some(d.eventHandlers[name]) else None
  }

  /** The handlers `notify` sees for `name`: an undefined entry behaves as no handlers. */
  function Handlers<H>(d: Dispatcher<H>, name: string): seq<H>
  {
    if name in d.eventHandlers then d.eventHandlers[name] else []
  }

  /** `register(name, h)`: appends `h` to the entry for `name`, creating the entry when absent. */
  function Register<H>(d: Dispatcher<H>, name: string, h: H): (r: Dispatcher<H>)
    ensures Lookup(r, name).Some?
    ensures |Handlers(r, name)| == |Handlers(d, name)| + 1
    ensures Handlers(r, name)[|Handlers(d, name)|] == h
    ensures Handlers(r, name)[..|Handlers(d, name)|] == Handlers(d, name)
    ensures r.eventHandlers.Keys == d.eventHandlers.Keys + {name}
    ensures forall other :: other != name ==> Lookup(r, other) == Lookup(d, other)
  {
    Dispatcher(d.eventHandlers[name := Handlers(d, name) + [h]])
  }

  /**
    Removes one occurrence of `h` from `hs`: the first one. When `h` does not
    occur, `hs` is returned unchanged.
   */
  function RemoveFirst<H(==)>(hs: seq<H>, h: H): (r: seq<H>)
    ensures h !in hs ==> r == hs
    ensures h in hs ==> |r| == |hs| - 1
    ensures h in hs ==> multiset(r) + multiset{h} == multiset(hs)
  {
    if |hs| == 0 then hs
    else if hs[0] == h then
      assert hs == [h] + hs[1..];
      hs[1..]
    else
      assert hs == [hs[0]] + hs[1..];
      [hs[0]] + RemoveFirst(hs[1..], h)
  }

  /**
    The occurrence `RemoveFirst` takes out is the first one: when `hs[i]` is
    the first `h`, everything before and after position `i` is kept.
   */
  lemma {:induction false} RemoveFirstTakesFirstOccurrence<H>(hs: seq<H>, h: H, i: nat)
    requires i < |hs| && hs[i] == h && h !in hs[..i]
    ensures RemoveFirst(hs, h) == hs[..i] + hs[i + 1..]
  {
    if i != 0 {
      assert hs[0] == hs[..i][0];
      assert hs[1..][..i - 1] == hs[1..i];
      assert h !in hs[1..][..i - 1];
      RemoveFirstTakesFirstOccurrence(hs[1..], h, i - 1);
      assert hs[..i] == [hs[0]] + hs[1..][..i - 1];
    }
  }

  /**
    `unregister(name, h)`: removes one occurrence of `h` from the entry for
    `name`. The entry stays defined even when it becomes empty; an undefined
    entry or a handler that is not registered leaves the dispatcher unchanged.
   */
  function Unregister<H(==)>(d: Dispatcher<H>, name: string, h: H): (r: Dispatcher<H>)
    ensures name !in d.eventHandlers ==> r == d
    ensures h !in Handlers(d, name) ==> r == d
    ensures r.eventHandlers.Keys == d.eventHandlers.Keys
    ensures h in Handlers(d, name) ==> |Handlers(r, name)| == |Handlers(d, name)| - 1
    ensures forall other :: other != name ==> Lookup(r, other) == Lookup(d, other)
  {
    if name in d.eventHandlers then
      var hs := d.eventHandlers[name];
      assert h !in hs ==> d.eventHandlers[name := hs] == d.eventHandlers;
      Dispatcher(d.eventHandlers[name := RemoveFirst(hs, h)])
    else
      d
  }

  /** `unregisterAll()`: every entry becomes undefined. */
  function UnregisterAll<H>(d: Dispatcher<H>): (r: Dispatcher<H>)
    ensures forall name :: Lookup(r, name) == None
  {
    Dispatcher(map[])
  }

  /** The invocations of `handle(e)` on each of `hs`, left to right. */
  function Calls<H, P>(hs: seq<H>, e: Event<P>): (trace: seq<Call<H, P>>)
    ensures |trace| == |hs|
    ensures forall i :: 0 <= i < |hs| ==> trace[i] == (hs[i], e)
  {
    if |hs| == 0 then [] else [(hs[0], e)] + Calls(hs[1..], e)
  }

  /**
    `notify(e)`: invokes `handle(e)` on every handler of the entry for
    `e.name`, in registration order. Nothing is invoked for an undefined or
    empty entry.
   */
  function Notify<H, P>(d: Dispatcher<H>, e: Event<P>): (trace: seq<Call<H, P>>)
    ensures |trace| == |Handlers(d, e.name)|
    ensures forall i :: 0 <= i < |trace| ==> trace[i] == (Handlers(d, e.name)[i], e)
  {
    Calls(Handlers(d, e.name), e)
  }

  /** The handlers invoked by a trace, in order. */
  function Callees<H, P>(trace: seq<Call<H, P>>): (hs: seq<H>)
    ensures |hs| == |trace|
    ensures forall i :: 0 <= i < |trace| ==> hs[i] == trace[i].0
  {
    if |trace| == 0 then [] else [trace[0].0] + Callees(trace[1..])
  }

  /**
    `notify` invokes exactly the handlers registered for the event's name, in
    order, and always with the notified event.
   */
  lemma NotifyInvokesExactlyTheEntry<H, P>(d: Dispatcher<H>, e: Event<P>)
    ensures Callees(Notify(d, e)) == Handlers(d, e.name)
    ensures forall c :: c in Notify(d, e) ==> c.1 == e && c.0 in Handlers(d, e.name)
  {
  }

  /** An event whose name has no defined entry, or an empty one, invokes nothing. */
  lemma NotifyWithoutHandlers<H, P>(d: Dispatcher<H>, e: Event<P>)
    requires Lookup(d, e.name) == None || Lookup(d, e.name) == Some([])
    ensures Notify(d, e) == []
  {
  }

  /**
    After `register(name, h)`, notifying an event of type `name` performs the
    previous invocations and then one more on `h`; events of other types are
    dispatched as before.
   */
  lemma NotifyAfterRegister<H, P>(d: Dispatcher<H>, name: string, h: H, e: Event<P>)
    ensures e.name == name ==> Notify(Register(d, name, h), e) == Notify(d, e) + [(h, e)]
    ensures e.name != name ==> Notify(Register(d, name, h), e) == Notify(d, e)
  {
  }

  /** Removing the first occurrence of a handler that was just appended, and nowhere else, undoes the append. */
  lemma {:induction false} RemoveFirstOfAppended<H>(hs: seq<H>, h: H)
    requires h !in hs
    ensures RemoveFirst(hs + [h], h) == hs
  {
    if |hs| != 0 {
      assert (hs + [h])[1..] == hs[1..] + [h];
      RemoveFirstOfAppended(hs[1..], h);
    }
  }

  /**
    `unregister` undoes `register` for a handler not yet in the entry: the
    entry returns to its previous contents, except that an entry that was
    undefined before is now defined and empty.
   */
  lemma UnregisterUndoesRegister<H>(d: Dispatcher<H>, name: string, h: H)
    requires h !in Handlers(d, name)
    ensures Lookup(Unregister(Register(d, name, h), name, h), name) == Some(Handlers(d, name))
    ensures name in d.eventHandlers ==> Unregister(Register(d, name, h), name, h) == d
    ensures name !in d.eventHandlers ==> Unregister(Register(d, name, h), name, h) != d
  {
    RemoveFirstOfAppended(Handlers(d, name), h);
    var r := Unregister(Register(d, name, h), name, h);
    if name in d.eventHandlers {
      assert r.eventHandlers == d.eventHandlers;
    } else {
      assert name in r.eventHandlers;
    }
  }

  /** `unregisterAll` is idempotent, and afterwards no event invokes any handler. */
  lemma UnregisterAllClears<H, P>(d: Dispatcher<H>, e: Event<P>)
    ensures UnregisterAll(UnregisterAll(d)) == UnregisterAll(d)
    ensures UnregisterAll(d) == New()
    ensures Notify(UnregisterAll(d), e) == []
  {
  }

  /** A registry operation, as the dispatcher's callers issue them. */
  datatype Op<H> =
    | RegisterOp(name: string, handler: H)
    | UnregisterOp(name: string, handler: H)
    | UnregisterAllOp

  function Apply<H(==)>(d: Dispatcher<H>, op: Op<H>): Dispatcher<H>
  {
    match op
    case RegisterOp(name, h) => Register(d, name, h)
    case UnregisterOp(name, h) => Unregister(d, name, h)
    case UnregisterAllOp => UnregisterAll(d)
  }

  /** The dispatcher after applying `ops` to `d`, first operation first. */
  function Run<H(==)>(d: Dispatcher<H>, ops: seq<Op<H>>): Dispatcher<H>
    decreases |ops|
  {
    if |ops| == 0 then d else Run(Apply(d, ops[0]), ops[1..])
  }

  /** How many of `ops` register `h` for `name`. */
  function Registrations<H(==)>(ops: seq<Op<H>>, name: string, h: H): nat
  {
    if |ops| == 0 then 0
    else (if ops[0] == RegisterOp(name, h) then 1 else 0) + Registrations(ops[1..], name, h)
  }

  /** Whether some operation of `ops` registers a handler for `name`. */
  predicate RegistersName<H>(ops: seq<Op<H>>, name: string)
  {
    exists i :: 0 <= i < |ops| && ops[i].RegisterOp? && ops[i].name == name
  }

  /** A single operation adds at most one occurrence of `h` to the entry for `name`, and only by registering it. */
  lemma ApplyCountBound<H>(d: Dispatcher<H>, op: Op<H>, name: string, h: H)
    ensures multiset(Handlers(Apply(d, op), name))[h]
      <= multiset(Handlers(d, name))[h] + (if op == RegisterOp(name, h) then 1 else 0)
  {
  }

  /**
    No deduplication and no invention: after any sequence of operations a
    handler occurs in an entry at most as often as it was already there plus
    the number of times it was registered for that name.
   */
  lemma {:induction false} RunCountBound<H>(d: Dispatcher<H>, ops: seq<Op<H>>, name: string, h: H)
    ensures multiset(Handlers(Run(d, ops), name))[h]
      <= multiset(Handlers(d, name))[h] + Registrations(ops, name, h)
    decreases |ops|
  {
    if |ops| != 0 {
      ApplyCountBound(d, ops[0], name, h);
      RunCountBound(Apply(d, ops[0]), ops[1..], name, h);
    }
  }

  /**
    A defined entry for `name` after running `ops` on a fresh dispatcher means
    that some operation registered a handler for `name`: an undefined entry
    means "never registered".
   */
  lemma {:induction false} DefinedEntryWasRegistered<H>(d: Dispatcher<H>, ops: seq<Op<H>>, name: string)
    requires name !in d.eventHandlers
    ensures name in Run(d, ops).eventHandlers ==> RegistersName(ops, name)
    decreases |ops|
  {
    if |ops| != 0 {
      var next := Apply(d, ops[0]);
      if ops[0].RegisterOp? && ops[0].name == name {
        assert RegistersName(ops, name);
      } else {
        assert name !in next.eventHandlers;
        DefinedEntryWasRegistered(next, ops[1..], name);
        if RegistersName(ops[1..], name) {
          var i :| 0 <= i < |ops[1..]| && ops[1..][i].RegisterOp? && ops[1..][i].name == name;
          assert ops[i + 1] == ops[1..][i];
        }
      }
    }
  }
}
