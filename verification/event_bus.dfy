/**
 * The event bus: for each event name, an insertion-ordered list of listener
 * records `(id, callback, options)`. Listener ids and generated bus names come
 * from process-wide counters, modelled as an explicit `Counters` value that
 * every creating operation takes and returns.
 */
module EventBus {
  import opened Wrappers
  import Decimal

  type EventName = string

  /** A listener callback, compared only by identity (`===` in the source). */
  datatype Callback = Callback(token: nat)

  /** `once` removes the record after its first call; `log` only writes a diagnostic. */
  datatype ListenerOptions = ListenerOptions(once: bool, log: bool)

  const NoOptions := ListenerOptions(false, false)

  datatype Listener = Listener(id: nat, callback: Callback, options: ListenerOptions)

  /**
   * The two static counters: how many buses were created, and the id the next
   * listener gets (the source starts its counter at -1 and pre-increments, so
   * the first id is 0).
   */
  datatype Counters = Counters(busCount: nat, nextListenerId: nat)

  const InitialCounters := Counters(0, 0)

  /**
   * A bus. An event name is mapped as soon as a listener is registered for it
   * and stays mapped (possibly to no records) until `Clear`.
   */
  datatype Bus = Bus(name: string, events: map<EventName, seq<Listener>>)

  /** One call of a listener's callback with the emitted payload. */
  datatype Invocation<P> = Invocation(id: nat, callback: Callback, data: P)

  /** How `off` designates what to remove: a listener id or a callback. */
  datatype ListenerRef = ById(id: int) | ByCallback(callback: Callback)

  datatype Created = Created(counters: Counters, bus: Bus)

  datatype Registered = Registered(counters: Counters, bus: Bus, id: nat)

  datatype Emitted<P> = Emitted(bus: Bus, calls: seq<Invocation<P>>)

  /** The records registered for `event`, in registration order. */
  function Listeners(bus: Bus, event: EventName): seq<Listener>
  {
    if event in bus.events then bus.events[event] else []
  }

  /** The name a bus gets when none is supplied. */
  function DefaultName(n: nat): string
  {
    "event-bus-" + Decimal.Show(n)
  }

  // ---------------------------------------------------------------------------
  // The registry invariant

  ghost predicate Increasing(s: seq<Listener>)
  {
    forall i, j :: 0 <= i < j < |s| ==> s[i].id < s[j].id
  }

  /**
   * What every bus reachable from a fresh one satisfies: within each event the
   * ids increase in registration order, every id was issued before (is below
   * the counter), and no id is registered under two event names.
   */
  ghost predicate Valid(c: Counters, bus: Bus)
  {
    && (forall e :: Increasing(Listeners(bus, e)))
    && (forall e, l :: l in Listeners(bus, e) ==> l.id < c.nextListenerId)
    && (forall e, e', l, l' :: e != e' && l in Listeners(bus, e) && l' in Listeners(bus, e') ==> l.id != l'.id)
  }

  /** Every record of `after` was already a record of `before`, under the same event. */
  ghost predicate Subsumed(after: Bus, before: Bus)
  {
    forall e, l :: l in Listeners(after, e) ==> l in Listeners(before, e)
  }

  /** A record below every id of an increasing list can go in front of it. */
  lemma PrependIncreasing(x: Listener, s: seq<Listener>)
    ensures Increasing(s) && (forall l :: l in s ==> x.id < l.id) ==> Increasing([x] + s)
  {
    if Increasing(s) && (forall l :: l in s ==> x.id < l.id) {
      forall i, j | 0 <= i < j < |[x] + s|
        ensures ([x] + s)[i].id < ([x] + s)[j].id
      {
        assert ([x] + s)[j] == s[j - 1];
        if i > 0 {
          assert ([x] + s)[i] == s[i - 1];
        } else {
          assert s[j - 1] in s;
        }
      }
    }
  }

  /** A record above every id of an increasing list can go behind it. */
  lemma AppendIncreasing(s: seq<Listener>, x: Listener)
    requires Increasing(s) && forall l :: l in s ==> l.id < x.id
    ensures Increasing(s + [x])
  {
    forall i, j | 0 <= i < j < |s + [x]|
      ensures (s + [x])[i].id < (s + [x])[j].id
    {
      assert (s + [x])[i] == s[i];
      if j == |s| {
        assert s[i] in s;
      }
    }
  }

  /** In an increasing list the first id is below every later one. */
  lemma HeadBelowTail(s: seq<Listener>)
    requires |s| > 0
    ensures Increasing(s) ==> forall l :: l in s[1..] ==> s[0].id < l.id
  {
    if Increasing(s) {
      forall l | l in s[1..]
        ensures s[0].id < l.id
      {
        var j :| 0 <= j < |s[1..]| && s[1..][j] == l;
        assert s[j + 1] == l;
      }
    }
  }

  // ---------------------------------------------------------------------------
  // Operations

  /**
   * `new EventBus(name)`: the bus counter is advanced even when a name is
   * supplied, because the generated name is computed by a field initialiser.
   */
  function NewBus(c: Counters, name: Option<string>): (r: Created)
    ensures r.counters.busCount == c.busCount + 1
    ensures r.counters.nextListenerId == c.nextListenerId
    ensures r.bus.name == name.GetOr(DefaultName(r.counters.busCount))
    ensures forall e :: Listeners(r.bus, e) == []
    ensures Valid(r.counters, r.bus)
  {
    var count := c.busCount + 1;
    Created(c.(busCount := count), Bus(name.GetOr(DefaultName(count)), map[]))
  }

  /** `on(event, callback, options)`: appends a record with the next global id. */
  function On(c: Counters, bus: Bus, event: EventName, callback: Callback, options: ListenerOptions): (r: Registered)
    ensures r.id == c.nextListenerId
    ensures r.counters == c.(nextListenerId := c.nextListenerId + 1)
    ensures event in r.bus.events
    ensures Listeners(r.bus, event) == Listeners(bus, event) + [Listener(r.id, callback, options)]
    ensures forall e :: e != event ==> Listeners(r.bus, e) == Listeners(bus, e)
    ensures r.bus.events.Keys == bus.events.Keys + {event}
    ensures r.bus.name == bus.name
  {
    var id := c.nextListenerId;
    var records := Listeners(bus, event) + [Listener(id, callback, options)];
    Registered(c.(nextListenerId := id + 1), bus.(events := bus.events[event := records]), id)
  }

  /**
   * The records of `s` that `doomed` does not select, in their original order.
   * Every removal of the bus (by id, by callback, of spent `once` records) is
   * this filter.
   */
  function Remove(s: seq<Listener>, doomed: Listener -> bool): (r: seq<Listener>)
    ensures forall l :: l in r <==> l in s && !doomed(l)
    ensures |r| <= |s|
    ensures (forall l :: l in s ==> !doomed(l)) ==> r == s
    ensures Increasing(s) ==> Increasing(r)
  {
    if |s| == 0 then []
    else
      var rest := Remove(s[1..], doomed);
      if doomed(s[0]) then rest
      else
        HeadBelowTail(s);
        PrependIncreasing(s[0], rest);
        [s[0]] + rest
  }

  /** One invocation per record, in order, all with the same payload. */
  function Calls<P>(s: seq<Listener>, data: P): (r: seq<Invocation<P>>)
    ensures |r| == |s|
    ensures forall i :: 0 <= i < |s| ==> r[i] == Invocation(s[i].id, s[i].callback, data)
  {
    if |s| == 0 then [] else [Invocation(s[0].id, s[0].callback, data)] + Calls(s[1..], data)
  }

  function IsOnce(l: Listener): bool
  {
    l.options.once
  }

  /**
   * `emit(event, data)`: every record of `event` is called once, in
   * registration order; then the `once` records are gone. An event nobody
   * listens to leaves the bus as it is.
   */
  function Emit<P>(bus: Bus, event: EventName, data: P): (r: Emitted<P>)
    ensures |r.calls| == |Listeners(bus, event)|
    ensures forall i :: 0 <= i < |r.calls| ==>
              r.calls[i] == Invocation(Listeners(bus, event)[i].id, Listeners(bus, event)[i].callback, data)
    ensures forall l :: l in Listeners(r.bus, event) <==> l in Listeners(bus, event) && !l.options.once
    ensures forall e :: e != event ==> Listeners(r.bus, e) == Listeners(bus, e)
    ensures r.bus.events.Keys == bus.events.Keys
    ensures (forall l :: l in Listeners(bus, event) ==> !l.options.once) ==> r.bus == bus
    ensures Increasing(Listeners(bus, event)) ==> Increasing(Listeners(r.bus, event))
    ensures r.bus.name == bus.name
  {
    if event in bus.events then
      var records := bus.events[event];
      Emitted(bus.(events := bus.events[event := Remove(records, IsOnce)]), Calls(records, data))
    else
      Emitted(bus, [])
  }

  predicate Matches(ref: ListenerRef, l: Listener)
  {
    match ref
    case ById(id) => l.id == id
    case ByCallback(callback) => l.callback == callback
  }

  /**
   * `off(event, idOrCallback)`: removes the record with that id, or every
   * record with that callback, from `event` only. Nothing to remove means no
   * change, and an unknown event is not mapped by it.
   */
  function Off(bus: Bus, event: EventName, ref: ListenerRef): (r: Bus)
    ensures forall l :: l in Listeners(r, event) <==> l in Listeners(bus, event) && !Matches(ref, l)
    ensures forall e :: e != event ==> Listeners(r, e) == Listeners(bus, e)
    ensures (forall l :: l in Listeners(bus, event) ==> !Matches(ref, l)) ==> r == bus
    ensures Increasing(Listeners(bus, event)) ==> Increasing(Listeners(r, event))
    ensures r.events.Keys == bus.events.Keys
    ensures r.name == bus.name
  {
    if event in bus.events then
      bus.(events := bus.events[event := Remove(bus.events[event], l => Matches(ref, l))])
    else
      bus
  }

  /** `clear()`: forgets every event; the global counters are not touched. */
  function Clear(bus: Bus): (r: Bus)
    ensures forall e :: Listeners(r, e) == []
    ensures r.name == bus.name
  {
    bus.(events := map[])
  }

  // ---------------------------------------------------------------------------
  // Counting

  function CountId<P>(calls: seq<Invocation<P>>, id: nat): nat
  {
    if |calls| == 0 then 0 else (if calls[0].id == id then 1 else 0) + CountId(calls[1..], id)
  }

  function CountCallback<P>(calls: seq<Invocation<P>>, callback: Callback): nat
  {
    if |calls| == 0 then 0
    else (if calls[0].callback == callback then 1 else 0) + CountCallback(calls[1..], callback)
  }

  lemma {:induction false} CountIdAppend<P>(a: seq<Invocation<P>>, b: seq<Invocation<P>>, id: nat)
    ensures CountId(a + b, id) == CountId(a, id) + CountId(b, id)
  {
    if |a| == 0 {
      assert a + b == b;
    } else {
      assert (a + b)[0] == a[0];
      assert (a + b)[1..] == a[1..] + b;
      CountIdAppend(a[1..], b, id);
    }
  }

  lemma {:induction false} CountCallbackAppend<P>(a: seq<Invocation<P>>, b: seq<Invocation<P>>, callback: Callback)
    ensures CountCallback(a + b, callback) == CountCallback(a, callback) + CountCallback(b, callback)
  {
    if |a| == 0 {
      assert a + b == b;
    } else {
      assert (a + b)[0] == a[0];
      assert (a + b)[1..] == a[1..] + b;
      CountCallbackAppend(a[1..], b, callback);
    }
  }

  /** No call carries `id` exactly when no record of the list has it. */
  lemma {:induction false} CountIdZero<P>(s: seq<Listener>, data: P, id: nat)
    ensures CountId(Calls(s, data), id) == 0 <==> forall l :: l in s ==> l.id != id
  {
    if |s| > 0 {
      assert Calls(s, data)[1..] == Calls(s[1..], data);
      CountIdZero(s[1..], data, id);
      assert forall l :: l in s <==> l == s[0] || l in s[1..];
    }
  }

  /** In a list with increasing ids, one emit calls a given id at most once. */
  lemma {:induction false} CountIdAtMostOne<P>(s: seq<Listener>, data: P, id: nat)
    requires Increasing(s)
    ensures CountId(Calls(s, data), id) <= 1
  {
    if |s| > 0 {
      assert Calls(s, data)[1..] == Calls(s[1..], data);
      CountIdAtMostOne(s[1..], data, id);
      if s[0].id == id {
        HeadBelowTail(s);
        CountIdZero(s[1..], data, id);
      }
    }
  }

  // ---------------------------------------------------------------------------
  // Properties of single operations

  /** A bus that only lost records, each list still increasing, is still valid. */
  lemma SubsumedValid(c: Counters, before: Bus, after: Bus)
    requires Valid(c, before) && Subsumed(after, before)
    requires forall e :: Increasing(Listeners(after, e))
    ensures Valid(c, after)
  {
  }

  lemma OnValid(c: Counters, bus: Bus, event: EventName, callback: Callback, options: ListenerOptions)
    requires Valid(c, bus)
    ensures Valid(On(c, bus, event, callback, options).counters, On(c, bus, event, callback, options).bus)
  {
    var r := On(c, bus, event, callback, options);
    var added := Listener(r.id, callback, options);
    forall e, l | l in Listeners(r.bus, e)
      ensures l in Listeners(bus, e) || (e == event && l == added)
    {
    }
    AppendIncreasing(Listeners(bus, event), added);
    forall e
      ensures Increasing(Listeners(r.bus, e))
    {
      if e != event {
        assert Listeners(r.bus, e) == Listeners(bus, e);
      }
    }
    forall e, l | l in Listeners(r.bus, e)
      ensures l.id < r.counters.nextListenerId
    {
    }
    forall e, e', l, l' | e != e' && l in Listeners(r.bus, e) && l' in Listeners(r.bus, e')
      ensures l.id != l'.id
    {
      if l == added {
        assert l' in Listeners(bus, e');
      } else if l' == added {
        assert l in Listeners(bus, e);
      }
    }
  }

  lemma OffValid(c: Counters, bus: Bus, event: EventName, ref: ListenerRef)
    requires Valid(c, bus)
    ensures Valid(c, Off(bus, event, ref))
  {
    var r := Off(bus, event, ref);
    forall e
      ensures Increasing(Listeners(r, e))
    {
      if e != event {
        assert Listeners(r, e) == Listeners(bus, e);
      }
    }
    SubsumedValid(c, bus, r);
  }

  lemma EmitValid<P>(c: Counters, bus: Bus, event: EventName, data: P)
    requires Valid(c, bus)
    ensures Valid(c, Emit(bus, event, data).bus)
  {
    var r := Emit(bus, event, data).bus;
    forall e
      ensures Increasing(Listeners(r, e))
    {
      if e != event {
        assert Listeners(r, e) == Listeners(bus, e);
      }
    }
    SubsumedValid(c, bus, r);
  }

  /**
   * The id `on` returns is above every id registered on any bus whose records
   * were issued from the same counters, and that bus stays valid under the
   * advanced counters: ids are shared by all buses.
   */
  lemma OnIdFresh(c: Counters, bus: Bus, other: Bus, event: EventName, callback: Callback, options: ListenerOptions)
    requires Valid(c, other)
    ensures forall e, l :: l in Listeners(other, e) ==> l.id < On(c, bus, event, callback, options).id
    ensures Valid(On(c, bus, event, callback, options).counters, other)
  {
  }

  /** An emit calls each record of the event exactly once. */
  lemma EmitCallsEachOnce<P>(c: Counters, bus: Bus, event: EventName, data: P, l: Listener)
    requires Valid(c, bus) && l in Listeners(bus, event)
    ensures CountId(Emit(bus, event, data).calls, l.id) == 1
  {
    var s := Listeners(bus, event);
    assert Emit(bus, event, data).calls == Calls(s, data);
    CountIdAtMostOne(s, data, l.id);
    CountIdZero(s, data, l.id);
  }

  /** After `clear`, no event calls anything; clearing twice is clearing once. */
  lemma ClearSilencesEverything<P>(bus: Bus, event: EventName, data: P)
    ensures Emit(Clear(bus), event, data).calls == []
    ensures Clear(Clear(bus)) == Clear(bus)
  {
  }

  // ---------------------------------------------------------------------------
  // Sequences of operations

  datatype Op<P> =
    | Register(event: EventName, callback: Callback, options: ListenerOptions)
    | Unregister(event: EventName, ref: ListenerRef)
    | Publish(event: EventName, data: P)
    | ClearAll

  /** The state after a run, every call made during it and every id issued by it. */
  datatype Outcome<P> = Outcome(counters: Counters, bus: Bus, calls: seq<Invocation<P>>, ids: seq<nat>)

  function Apply<P>(c: Counters, bus: Bus, op: Op<P>): Outcome<P>
  {
    match op
    case Register(event, callback, options) =>
      var r := On(c, bus, event, callback, options);
      Outcome(r.counters, r.bus, [], [r.id])
    case Unregister(event, ref) => Outcome(c, Off(bus, event, ref), [], [])
    case Publish(event, data) =>
      var r := Emit(bus, event, data);
      Outcome(c, r.bus, r.calls, [])
    case ClearAll => Outcome(c, Clear(bus), [], [])
  }

  function Run<P>(c: Counters, bus: Bus, ops: seq<Op<P>>): Outcome<P>
    decreases |ops|
  {
    if |ops| == 0 then Outcome(c, bus, [], [])
    else
      var first := Apply(c, bus, ops[0]);
      var rest := Run(first.counters, first.bus, ops[1..]);
      Outcome(rest.counters, rest.bus, first.calls + rest.calls, first.ids + rest.ids)
  }

  /** Every record of `after` is a record of `before` or carries an id of at least `n`. */
  ghost predicate OldOrNewer(after: Bus, before: Bus, n: nat)
  {
    forall e, l :: l in Listeners(after, e) ==> l in Listeners(before, e) || l.id >= n
  }

  lemma OnOldOrNewer(c: Counters, bus: Bus, event: EventName, callback: Callback, options: ListenerOptions)
    ensures OldOrNewer(On(c, bus, event, callback, options).bus, bus, c.nextListenerId)
  {
    var r := On(c, bus, event, callback, options);
    forall e, l | l in Listeners(r.bus, e)
      ensures l in Listeners(bus, e) || l.id >= c.nextListenerId
    {
      if e != event {
        assert Listeners(r.bus, e) == Listeners(bus, e);
      }
    }
  }

  /**
   * One operation keeps the bus valid, advances the counter by the ids it
   * issues, and every record it leaves is an old one or carries a new id.
   */
  lemma ApplyValid<P>(c: Counters, bus: Bus, op: Op<P>)
    requires Valid(c, bus)
    ensures Valid(Apply(c, bus, op).counters, Apply(c, bus, op).bus)
    ensures Apply(c, bus, op).counters.nextListenerId == c.nextListenerId + |Apply(c, bus, op).ids|
    ensures Consecutive(Apply(c, bus, op).ids, c.nextListenerId)
  {
    match op
    case Register(event, callback, options) => OnValid(c, bus, event, callback, options);
    case Unregister(event, ref) => OffValid(c, bus, event, ref);
    case Publish(event, data) => EmitValid(c, bus, event, data);
    case ClearAll =>
  }

  /** No operation brings back a record with an id issued before it. */
  lemma ApplyOldOrNewer<P>(c: Counters, bus: Bus, op: Op<P>)
    ensures OldOrNewer(Apply(c, bus, op).bus, bus, c.nextListenerId)
  {
    match op
    case Register(event, callback, options) => OnOldOrNewer(c, bus, event, callback, options);
    case Unregister(event, ref) => assert Subsumed(Off(bus, event, ref), bus);
    case Publish(event, data) => assert Subsumed(Emit(bus, event, data).bus, bus);
    case ClearAll =>
  }

  /**
   * Over any run, the registry stays valid and the ids handed out are
   * consecutive from the counter: each is 1 above the previous, so strictly
   * above every id issued before it, on this bus or any other; `clear` does
   * not reset them.
   */
  lemma {:induction false} RunIssuesFreshIds<P>(c: Counters, bus: Bus, ops: seq<Op<P>>)
    requires Valid(c, bus)
    ensures Valid(Run(c, bus, ops).counters, Run(c, bus, ops).bus)
    ensures Run(c, bus, ops).counters.nextListenerId == c.nextListenerId + |Run(c, bus, ops).ids|
    ensures Consecutive(Run(c, bus, ops).ids, c.nextListenerId)
    decreases |ops|
  {
    if |ops| > 0 {
      var first := Apply(c, bus, ops[0]);
      ApplyValid(c, bus, ops[0]);
      RunIssuesFreshIds(first.counters, first.bus, ops[1..]);
      var rest := Run(first.counters, first.bus, ops[1..]);
      ConsecutiveAppend(first.ids, rest.ids, c.nextListenerId);
    }
  }

  /** `ids` are `from`, `from + 1`, … in order. */
  ghost predicate Consecutive(ids: seq<nat>, from: nat)
  {
    forall i :: 0 <= i < |ids| ==> ids[i] == from + i
  }

  lemma ConsecutiveAppend(a: seq<nat>, b: seq<nat>, from: nat)
    requires Consecutive(a, from) && Consecutive(b, from + |a|)
    ensures Consecutive(a + b, from)
  {
  }

  ghost predicate Absent(bus: Bus, id: nat)
  {
    forall e, l :: l in Listeners(bus, e) ==> l.id != id
  }

  ghost predicate OnlyOnce(bus: Bus, id: nat)
  {
    forall e, l :: l in Listeners(bus, e) && l.id == id ==> l.options.once
  }

  /** An issued id that is no longer registered is never called again. */
  lemma {:induction false} GoneStaysGone<P>(c: Counters, bus: Bus, ops: seq<Op<P>>, id: nat)
    requires Valid(c, bus) && id < c.nextListenerId && Absent(bus, id)
    ensures CountId(Run(c, bus, ops).calls, id) == 0
    decreases |ops|
  {
    if |ops| > 0 {
      var first := Apply(c, bus, ops[0]);
      ApplyValid(c, bus, ops[0]);
      AbsentCallsNothing(c, bus, ops[0], id);
      AbsentStaysAbsent(c, bus, ops[0], id);
      GoneStaysGone(first.counters, first.bus, ops[1..], id);
      CountIdAppend(first.calls, Run(first.counters, first.bus, ops[1..]).calls, id);
    }
  }

  lemma AbsentCallsNothing<P>(c: Counters, bus: Bus, op: Op<P>, id: nat)
    requires Absent(bus, id)
    ensures CountId(Apply(c, bus, op).calls, id) == 0
  {
    if op.Publish? {
      var s := Listeners(bus, op.event);
      assert Apply(c, bus, op).calls == Calls(s, op.data);
      CountIdZero(s, op.data, id);
    }
  }

  /** No operation registers an id issued before it, so an absent one stays absent. */
  lemma AbsentStaysAbsent<P>(c: Counters, bus: Bus, op: Op<P>, id: nat)
    requires id < c.nextListenerId && Absent(bus, id)
    ensures Absent(Apply(c, bus, op).bus, id)
  {
    ApplyOldOrNewer(c, bus, op);
  }

  /** An operation that calls no record with `id` keeps the records with `id` as they were. */
  lemma OnlyOnceKept<P>(c: Counters, bus: Bus, op: Op<P>, id: nat)
    requires id < c.nextListenerId && OnlyOnce(bus, id)
    ensures OnlyOnce(Apply(c, bus, op).bus, id)
  {
    ApplyOldOrNewer(c, bus, op);
  }

  /**
   * An emit that calls a `once` record with `id` calls it exactly once and
   * leaves no record with `id` on the bus.
   */
  lemma SpentOnceIsGone<P>(c: Counters, bus: Bus, event: EventName, data: P, id: nat)
    requires Valid(c, bus) && OnlyOnce(bus, id)
    requires CountId(Emit(bus, event, data).calls, id) != 0
    ensures CountId(Emit(bus, event, data).calls, id) == 1
    ensures Absent(Emit(bus, event, data).bus, id)
  {
    var s := Listeners(bus, event);
    var after := Emit(bus, event, data).bus;
    assert Emit(bus, event, data).calls == Calls(s, data);
    CountIdAtMostOne(s, data, id);
    CountIdZero(s, data, id);
    var x :| x in s && x.id == id;
    forall e, l | l in Listeners(after, e)
      ensures l.id != id
    {
      if e != event {
        assert l in Listeners(bus, e);
      }
    }
  }

  /**
   * A record registered with `once` is called at most once over any run,
   * whatever is registered, removed, emitted or cleared meanwhile.
   */
  lemma {:induction false} OnceCalledAtMostOnce<P>(c: Counters, bus: Bus, ops: seq<Op<P>>, id: nat)
    requires Valid(c, bus) && id < c.nextListenerId && OnlyOnce(bus, id)
    ensures CountId(Run(c, bus, ops).calls, id) <= 1
    decreases |ops|
  {
    if |ops| > 0 {
      var first := Apply(c, bus, ops[0]);
      var rest := Run(first.counters, first.bus, ops[1..]);
      ApplyValid(c, bus, ops[0]);
      CountIdAppend(first.calls, rest.calls, id);
      if ops[0].Publish? && CountId(first.calls, id) != 0 {
        SpentOnceIsGone(c, bus, ops[0].event, ops[0].data, id);
        GoneStaysGone(first.counters, first.bus, ops[1..], id);
      } else {
        assert CountId(first.calls, id) == 0;
        OnlyOnceKept(c, bus, ops[0], id);
        OnceCalledAtMostOnce(first.counters, first.bus, ops[1..], id);
      }
    }
  }

  /** A fresh `once` listener: registered and never called yet, it runs at most once afterwards. */
  lemma OnceListenerRunsAtMostOnce<P>(c: Counters, bus: Bus, event: EventName, callback: Callback, log: bool, ops: seq<Op<P>>)
    requires Valid(c, bus)
    ensures
      var r := On(c, bus, event, callback, ListenerOptions(true, log));
      CountId(Run(r.counters, r.bus, ops).calls, r.id) <= 1
  {
    var r := On(c, bus, event, callback, ListenerOptions(true, log));
    OnValid(c, bus, event, callback, ListenerOptions(true, log));
    OnceCalledAtMostOnce(r.counters, r.bus, ops, r.id);
  }

  // ---------------------------------------------------------------------------
  // Removal and duplicate registration

  /** Registers the same callback `n` times under one event. */
  function RegisterTimes(c: Counters, bus: Bus, event: EventName, callback: Callback, n: nat): Registered
    decreases n
  {
    if n == 0 then Registered(c, bus, c.nextListenerId)
    else
      var r := On(c, bus, event, callback, NoOptions);
      RegisterTimes(r.counters, r.bus, event, callback, n - 1)
  }

  function CountRecords(s: seq<Listener>, callback: Callback): nat
  {
    if |s| == 0 then 0 else (if s[0].callback == callback then 1 else 0) + CountRecords(s[1..], callback)
  }

  lemma {:induction false} CountRecordsAppend(s: seq<Listener>, l: Listener, callback: Callback)
    ensures CountRecords(s + [l], callback) == CountRecords(s, callback) + (if l.callback == callback then 1 else 0)
  {
    if |s| == 0 {
      assert s + [l] == [l];
    } else {
      assert (s + [l])[0] == s[0];
      assert (s + [l])[1..] == s[1..] + [l];
      CountRecordsAppend(s[1..], l, callback);
    }
  }

  lemma {:induction false} CountCallsOfRecords<P>(s: seq<Listener>, data: P, callback: Callback)
    ensures CountCallback(Calls(s, data), callback) == CountRecords(s, callback)
  {
    if |s| > 0 {
      assert Calls(s, data)[1..] == Calls(s[1..], data);
      CountCallsOfRecords(s[1..], data, callback);
    }
  }

  lemma {:induction false} RegisterTimesAddsRecords(c: Counters, bus: Bus, event: EventName, callback: Callback, n: nat)
    ensures CountRecords(Listeners(RegisterTimes(c, bus, event, callback, n).bus, event), callback)
            == CountRecords(Listeners(bus, event), callback) + n
    decreases n
  {
    if n > 0 {
      var r := On(c, bus, event, callback, NoOptions);
      CountRecordsAppend(Listeners(bus, event), Listener(r.id, callback, NoOptions), callback);
      RegisterTimesAddsRecords(r.counters, r.bus, event, callback, n - 1);
    }
  }

  /**
   * The same callback registered `n` times is `n` independent records: one
   * emit calls it `n` more times than before.
   */
  lemma RegisteredTwiceCalledTwice<P>(c: Counters, bus: Bus, event: EventName, callback: Callback, n: nat, data: P)
    ensures CountCallback(Emit(RegisterTimes(c, bus, event, callback, n).bus, event, data).calls, callback)
            == CountCallback(Emit(bus, event, data).calls, callback) + n
  {
    var after := RegisterTimes(c, bus, event, callback, n).bus;
    assert Emit(after, event, data).calls == Calls(Listeners(after, event), data);
    assert Emit(bus, event, data).calls == Calls(Listeners(bus, event), data);
    CountCallsOfRecords(Listeners(after, event), data, callback);
    CountCallsOfRecords(Listeners(bus, event), data, callback);
    RegisterTimesAddsRecords(c, bus, event, callback, n);
  }

  lemma {:induction false} CountRecordsZero(s: seq<Listener>, callback: Callback)
    ensures CountRecords(s, callback) == 0 <==> forall l :: l in s ==> l.callback != callback
  {
    if |s| > 0 {
      CountRecordsZero(s[1..], callback);
      assert forall l :: l in s <==> l == s[0] || l in s[1..];
    }
  }

  /** After `off(event, callback)`, emitting `event` never calls that callback. */
  lemma OffCallbackSilences<P>(bus: Bus, event: EventName, callback: Callback, data: P)
    ensures CountCallback(Emit(Off(bus, event, ByCallback(callback)), event, data).calls, callback) == 0
  {
    var after := Off(bus, event, ByCallback(callback));
    assert Emit(after, event, data).calls == Calls(Listeners(after, event), data);
    CountCallsOfRecords(Listeners(after, event), data, callback);
    CountRecordsZero(Listeners(after, event), callback);
  }

  lemma IncreasingTail(s: seq<Listener>)
    requires |s| > 0 && Increasing(s)
    ensures Increasing(s[1..])
  {
  }

  /** A record that `doomed` rejects stays at the head of what `Remove` keeps. */
  lemma RemoveKeepsHead(s: seq<Listener>, doomed: Listener -> bool)
    requires |s| > 0 && !doomed(s[0])
    ensures Remove(s, doomed) == [s[0]] + Remove(s[1..], doomed)
  {
  }

  lemma RemoveOnlyFirst(s: seq<Listener>, doomed: Listener -> bool)
    requires Increasing(s) && |s| > 0
    requires forall l :: doomed(l) <==> l.id == s[0].id
    ensures Remove(s, doomed) == s[1..]
  {
    HeadBelowTail(s);
    assert Remove(s, doomed) == Remove(s[1..], doomed);
  }

  /** Removing the records with the id of position `i` of an increasing list drops exactly that position. */
  lemma {:induction false} RemoveOnlyIndex(s: seq<Listener>, i: nat, doomed: Listener -> bool)
    requires Increasing(s) && i < |s|
    requires forall l :: doomed(l) <==> l.id == s[i].id
    ensures Remove(s, doomed) == s[..i] + s[i + 1..]
  {
    if i == 0 {
      RemoveOnlyFirst(s, doomed);
    } else {
      var tail := s[1..];
      assert tail[i - 1] == s[i];
      IncreasingTail(s);
      RemoveOnlyIndex(tail, i - 1, doomed);
      RemoveKeepsHead(s, doomed);
      SpliceCons(s, i);
    }
  }

  lemma SpliceCons(s: seq<Listener>, i: nat)
    requires 0 < i < |s|
    ensures [s[0]] + (s[1..][..i - 1] + s[1..][i..]) == s[..i] + s[i + 1..]
  {
    assert [s[0]] + s[1..][..i - 1] == s[..i];
    assert s[1..][i..] == s[i + 1..];
  }

  /**
   * `off(event, id)` on a valid bus removes that one record: the list loses
   * exactly the record with the id, keeps the others in order (other records
   * with the same callback included) and other events are untouched.
   */
  lemma OffIdRemovesOne(c: Counters, bus: Bus, event: EventName, i: nat)
    requires Valid(c, bus) && i < |Listeners(bus, event)|
    ensures Listeners(Off(bus, event, ById(Listeners(bus, event)[i].id)), event)
            == Listeners(bus, event)[..i] + Listeners(bus, event)[i + 1..]
  {
    var s := Listeners(bus, event);
    RemoveOnlyIndex(s, i, l => Matches(ById(s[i].id), l));
  }
}
