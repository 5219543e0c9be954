/** The HTTP filter chain: contexts linked back to front from the configuration, then run by
    recursion from the front, each filter free to continue, to stop, or to throw. */
module FilterChain {
  import opened Options

  /** How a call ended: normally, or with an exception leaving it. */
  datatype Ended = Normally | Raised

  /** What a filter's `DoFilter` does for the request at hand.  After `Next()` or `HandleRequest()`
      it goes on in one of two ways, the second being its own catch of what escaped the call. */
  datatype Behaviour =
    | Return
    | Throw
    | CallNext(after: Behaviour, caught: Behaviour)
    | CallHandler(after: Behaviour, caught: Behaviour)
  {
    /** The most calls that `DoFilter` makes along the rest of the chain. */
    function Calls(): nat {
      match this
      case Return => 0
      case Throw => 0
      case CallNext(t, c) => 1 + (if t.Calls() >= c.Calls() then t.Calls() else c.Calls())
      case CallHandler(t, c) => 1 + (if t.Calls() >= c.Calls() then t.Calls() else c.Calls())
    }

    /** Whether `DoFilter` ends by throwing when every call it makes returns normally. */
    predicate Raises() {
      match this
      case Return => false
      case Throw => true
      case CallNext(t, _) => t.Raises()
      case CallHandler(t, _) => t.Raises()
    }

    /** The same with every catch block replaced by `k`. */
    function WithCaught(k: Behaviour): Behaviour {
      match this
      case Return => Return
      case Throw => Throw
      case CallNext(t, _) => CallNext(t.WithCaught(k), k)
      case CallHandler(t, _) => CallHandler(t.WithCaught(k), k)
    }
  }

  datatype Filter = Filter(name: string, does: Behaviour)

  /** A handler either returns or throws. */
  datatype Handler = Handler(throws: bool)

  /** `HttpFilterContextImpl`: a filter, the next context if any, and the handler. */
  datatype Context = Context(filter: Filter, next: Option<Context>, handler: Handler)

  /** Whether the pointers are set, and whether the exceptions handler itself throws. */
  datatype Env = Env(request: bool, response: bool, exceptionsHandlerThrows: bool)

  datatype Event = Entered(filter: string) | Handled | ExceptionHandled | Closed

  datatype Result = Result(events: seq<Event>, ended: Ended)

  /** The catch-all of `HttpFilterBase::Process` and `HttpHandlerBase::Process`. */
  function Caught(r: Result, env: Env): Result {
    if r.ended.Normally? then r
    else Result(r.events + [ExceptionHandled], if env.exceptionsHandlerThrows then Raised else Normally)
  }

  function ProcessHandler(h: Handler, env: Env): Result {
    if !env.response then Result([], Normally)
    else if !env.request then Result([Closed], Normally)
    else Caught(Result([Handled], if h.throws then Raised else Normally), env)
  }

  /** `DoFilter` of a context: the filter's `Process`. */
  function DoFilter(c: Context, env: Env): Result
    decreases c, 2
  {
    if !env.response then Result([], Normally)
    else if !env.request then Result([Closed], Normally)
    else
      var body := RunBehaviour(c.filter.does, c, env);
      Caught(Result([Entered(c.filter.name)] + body.events, body.ended), env)
  }

  function RunBehaviour(b: Behaviour, c: Context, env: Env): Result
    decreases c, 1, b
  {
    match b
    case Return => Result([], Normally)
    case Throw => Result([], Raised)
    case CallNext(t, k) =>
      var called := Next(c, env);
      var rest := RunBehaviour(if called.ended.Normally? then t else k, c, env);
      Result(called.events + rest.events, rest.ended)
    case CallHandler(t, k) =>
      var called := ProcessHandler(c.handler, env);
      var rest := RunBehaviour(if called.ended.Normally? then t else k, c, env);
      Result(called.events + rest.events, rest.ended)
  }

  function Next(c: Context, env: Env): Result
    decreases c, 0
  {
    match c.next
    case Some(n) => DoFilter(n, env)
    case None => ProcessHandler(c.handler, env)
  }

  // ---------------------------------------------------------------- building the chain

  /** The context at position `i` of a configured list, linked to the one after it. */
  function ContextAt(filters: seq<Filter>, i: nat, h: Handler): Context
    requires i < |filters|
    decreases |filters| - i
  {
    Context(filters[i], if i + 1 < |filters| then Some(ContextAt(filters, i + 1, h)) else None, h)
  }

  function ContextsFrom(filters: seq<Filter>, i: nat, h: Handler): (cs: seq<Context>)
    requires i <= |filters|
    ensures |cs| == |filters| - i
    ensures forall j | i <= j < |filters| :: cs[j - i] == ContextAt(filters, j, h)
    decreases |filters| - i
  {
    if i == |filters| then [] else [ContextAt(filters, i, h)] + ContextsFrom(filters, i + 1, h)
  }

  class HttpFilterContextsMap {
    var filtersByHandler: map<string, seq<Context>>

    constructor ()
      ensures filtersByHandler == map[]
    {
      filtersByHandler := map[];
    }

    ghost function List(name: string): seq<Context>
      reads this
    {
      if name in filtersByHandler then filtersByHandler[name] else []
    }

    method AddFront(name: string, context: Context)
      modifies this
      ensures List(name) == [context] + old(List(name))
      ensures forall other | other != name :: List(other) == old(List(other))
    {
      var list := if name in filtersByHandler then filtersByHandler[name] else [];
      filtersByHandler := filtersByHandler[name := [context] + list];
    }

    method HasFilters(name: string) returns (has: bool)
      ensures has <==> List(name) != []
    {
      has := name in filtersByHandler && filtersByHandler[name] != [];
    }

    method DoFiltersAndHandler(name: string, env: Env) returns (r: Result)
      ensures r == if List(name) == [] then Result([], Normally) else DoFilter(List(name)[0], env)
    {
      if name !in filtersByHandler || filtersByHandler[name] == [] {
        return Result([], Normally);
      }
      r := DoFilter(filtersByHandler[name][0], env);
    }
  }

  ghost predicate Registered(config: seq<string>, factory: map<string, Filter>) {
    forall name <- config :: name in factory
  }

  function Created(config: seq<string>, factory: map<string, Filter>): seq<Filter>
    requires forall name <- config :: name in factory
  {
    seq(|config|, i requires 0 <= i < |config| => factory[config[i]])
  }

  /** The list starts with one context per configured name, in the order of the configuration: each
      holds the filter registered under that name and the handler, and is linked to the context after
      it, the last one to none.  `older` contexts follow. */
  ghost predicate LinksInOrder(
    list: seq<Context>, config: seq<string>, factory: map<string, Filter>, h: Handler, older: nat)
  {
    && |list| == |config| + older
    && forall j | 0 <= j < |config| ::
         && config[j] in factory && list[j].filter == factory[config[j]] && list[j].handler == h
         && list[j].next == if j + 1 < |config| then Some(list[j + 1]) else None
  }

  lemma LinkedInOrder(
    config: seq<string>, factory: map<string, Filter>, h: Handler, before: seq<Context>, list: seq<Context>)
    requires Registered(config, factory)
    requires list == ContextsFrom(Created(config, factory), 0, h) + before
    ensures LinksInOrder(list, config, factory, h, |before|)
  {
    var filters := Created(config, factory);
    forall j | 0 <= j < |config|
      ensures config[j] in factory && list[j].filter == factory[config[j]] && list[j].handler == h
      ensures list[j].next == if j + 1 < |config| then Some(list[j + 1]) else None
    {
      assert config[j] in config;
      assert list[j] == ContextAt(filters, j, h);
      if j + 1 < |config| {
        assert list[j + 1] == ContextAt(filters, j + 1, h);
      }
    }
  }

  /** Links the configured filters from the last to the first, pushing each to the front.  Throws
      exactly when some filter is not registered. */
  method FillFilterCtxsMap(contexts: HttpFilterContextsMap, config: seq<string>, handlerName: string,
                           handler: Handler, factory: map<string, Filter>) returns (threw: bool)
    modifies contexts
    ensures threw <==> !Registered(config, factory)
    ensures !threw ==>
      contexts.List(handlerName)
        == ContextsFrom(Created(config, factory), 0, handler) + old(contexts.List(handlerName))
    ensures !threw ==>
      LinksInOrder(contexts.List(handlerName), config, factory, handler, |old(contexts.List(handlerName))|)
    ensures forall other | other != handlerName :: contexts.List(other) == old(contexts.List(other))
  {
    var prev: Option<Context> := None;
    ghost var before := contexts.List(handlerName);
    var i := |config|;
    LinkedNone(config, factory, handler, before);
    while i > 0
      invariant 0 <= i <= |config| && Linked(config, i, factory, handler, prev, before, contexts.List(handlerName))
      invariant forall other | other != handlerName :: contexts.List(other) == old(contexts.List(other))
    {
      hide Linked, Registered;
      i := i - 1;
      if config[i] !in factory {
        assert !Registered(config, factory) by {
          NotRegistered(config, i, factory);
        }
        return true;
      }
      LinkOneMore(config, i, factory, handler, prev, before, contexts.List(handlerName));
      var context := Context(factory[config[i]], prev, handler);
      prev := Some(context);
      contexts.AddFront(handlerName, context);
    }
    assert config[0..] == config;
    LinkedInOrder(config, factory, handler, before, contexts.List(handlerName));
    threw := false;
  }

  /** One handler's configuration built into an empty map and one request served from it: without
      filters the handler itself processes the request, otherwise the front context does. */
  method BuildAndServe(config: seq<string>, handlerName: string, handler: Handler,
                       factory: map<string, Filter>, env: Env)
    returns (threw: bool, r: Result)
    ensures threw <==> !Registered(config, factory)
    ensures !threw ==> r == if config == [] then ProcessHandler(handler, env)
                            else DoFilter(ContextAt(Created(config, factory), 0, handler), env)
    ensures !threw && env.request && env.response && Plainly(config, factory) ==>
      exists k: nat :: RunsTo(config, factory, k) && EnteredIn(r.events) == config[..k]
                  && HandledIn(r.events) == if k > 0 && !CallsOn(factory[config[k - 1]].does) then 0 else 1
  {
    var contexts := new HttpFilterContextsMap();
    threw := FillFilterCtxsMap(contexts, config, handlerName, handler, factory);
    if threw {
      return true, Result([], Normally);
    }
    var has := contexts.HasFilters(handlerName);
    if !has {
      r := ProcessHandler(handler, env);
    } else {
      r := contexts.DoFiltersAndHandler(handlerName, env);
    }
    if env.request && env.response && Plainly(config, factory) {
      ghost var k := ServedInOrder(config, factory, handler, env, r);
    }
  }

  /** Filters are registered under their own names, and each calls on at most once. */
  ghost predicate Plainly(config: seq<string>, factory: map<string, Filter>) {
    forall name <- config :: name in factory && factory[name].name == name && factory[name].does.Calls() <= 1
  }

  /** `k` configured filters are reached: all those before the last of them call `Next`, and it either
      does not or is the last one configured. */
  ghost predicate RunsTo(config: seq<string>, factory: map<string, Filter>, k: nat) {
    && k <= |config| && (config != [] ==> k > 0)
    && (forall j | 0 <= j < k :: config[j] in factory)
    && (forall j | 0 <= j < k - 1 :: factory[config[j]].does.CallNext?)
    && (k < |config| ==> !factory[config[k - 1]].does.CallNext?)
  }

  lemma ServedInOrder(
    config: seq<string>, factory: map<string, Filter>, h: Handler, env: Env, r: Result) returns (k: nat)
    requires env.request && env.response && Plainly(config, factory)
    requires r == if config == [] then ProcessHandler(h, env)
                  else DoFilter(ContextAt(Created(config, factory), 0, h), env)
    ensures RunsTo(config, factory, k) && EnteredIn(r.events) == config[..k]
    ensures HandledIn(r.events) == if k > 0 && !CallsOn(factory[config[k - 1]].does) then 0 else 1
  {
    if config == [] {
      HandlerEvents(h, env);
      return 0;
    }
    var filters := Created(config, factory);
    k := Reached(filters, 0);
    CreatedAre(config, factory);
    hide DoFilter, ContextAt, EnteredIn, HandledIn, Behaviour.Calls, CallsOn, Created, Names, Reached, Plainly;
    ChainRunsInOrder(filters, h, env);
    ReachedStops(filters, 0);
  }

  lemma CreatedAre(config: seq<string>, factory: map<string, Filter>)
    requires Plainly(config, factory)
    ensures forall name <- config :: name in factory
    ensures var filters := Created(config, factory);
      && |filters| == |config| && Names(filters) == config
      && (forall j | 0 <= j < |config| :: config[j] in factory && filters[j] == factory[config[j]])
      && (forall f <- filters :: f.does.Calls() <= 1)
  {
    hide Behaviour.Calls;
    var filters := Created(config, factory);
    forall j | 0 <= j < |config|
      ensures config[j] in factory && filters[j] == factory[config[j]] && Names(filters)[j] == config[j]
    {
      assert config[j] in config;
    }
  }

  lemma NotRegistered(config: seq<string>, i: nat, factory: map<string, Filter>)
    requires i < |config| && config[i] !in factory
    ensures !Registered(config, factory)
  {
    assert config[i] in config;
  }

  /** What the linking loop has done when it has reached position `i` from the back. */
  ghost predicate Linked(config: seq<string>, i: nat, factory: map<string, Filter>, h: Handler,
                         prev: Option<Context>, before: seq<Context>, list: seq<Context>)
  {
    && i <= |config| && Registered(config[i..], factory)
    && prev == (if i == |config| then None else Some(ContextAt(Created(config[i..], factory), 0, h)))
    && list == ContextsFrom(Created(config[i..], factory), 0, h) + before
  }

  lemma LinkedNone(config: seq<string>, factory: map<string, Filter>, h: Handler, before: seq<Context>)
    ensures Linked(config, |config|, factory, h, None, before, before)
  {
    assert config[|config|..] == [];
  }

  /** One turn of the linking loop. */
  lemma LinkOneMore(config: seq<string>, i: nat, factory: map<string, Filter>, h: Handler,
                    prev: Option<Context>, before: seq<Context>, list: seq<Context>)
    requires i < |config| && config[i] in factory && Linked(config, i + 1, factory, h, prev, before, list)
    ensures var context := Context(factory[config[i]], prev, h);
      Linked(config, i, factory, h, Some(context), before, [context] + list)
  {
    assert config[i..] == [config[i]] + config[i + 1..];
    var filters := Created(config[i..], factory);
    assert filters[1..] == Created(config[i + 1..], factory);
    ShiftContexts(filters, 1, h);
  }

  /** Contexts depend only on the filters from their position on. */
  lemma {:induction false} ShiftContext(filters: seq<Filter>, i: nat, h: Handler)
    requires 1 <= i < |filters|
    ensures ContextAt(filters, i, h) == ContextAt(filters[1..], i - 1, h)
    decreases |filters| - i
  {
    if i + 1 < |filters| {
      ShiftContext(filters, i + 1, h);
    }
  }

  lemma ShiftContexts(filters: seq<Filter>, i: nat, h: Handler)
    requires 1 <= i <= |filters|
    ensures ContextsFrom(filters, i, h) == ContextsFrom(filters[1..], i - 1, h)
    ensures i < |filters| ==> ContextAt(filters, i, h) == ContextAt(filters[1..], i - 1, h)
  {
    forall j | i <= j < |filters| ensures ContextAt(filters, j, h) == ContextAt(filters[1..], j - 1, h) {
      ShiftContext(filters, j, h);
    }
    var a, b := ContextsFrom(filters, i, h), ContextsFrom(filters[1..], i - 1, h);
    forall k | 0 <= k < |a| ensures a[k] == b[k] {
      assert a[k] == ContextAt(filters, k + i, h) && b[k] == ContextAt(filters[1..], k + i - 1, h);
    }
  }

  // ---------------------------------------------------------------- order and multiplicity

  /** The filters entered, in order. */
  function EnteredIn(events: seq<Event>): seq<string> {
    if events == [] then []
    else (if events[0].Entered? then [events[0].filter] else []) + EnteredIn(events[1..])
  }

  function HandledIn(events: seq<Event>): nat {
    if events == [] then 0 else (if events[0].Handled? then 1 else 0) + HandledIn(events[1..])
  }

  /** What the two say of a log, from its front. */
  lemma ObservedAtFront(e: Event, rest: seq<Event>)
    ensures EnteredIn([]) == [] && HandledIn([]) == 0
    ensures EnteredIn([e] + rest) == (if e.Entered? then [e.filter] else []) + EnteredIn(rest)
    ensures HandledIn([e] + rest) == HandledIn(rest) + if e == Handled then 1 else 0
  {
    assert ([e] + rest)[1..] == rest;
  }

  lemma ConcatEvents(a: seq<Event>, b: seq<Event>)
    ensures EnteredIn(a + b) == EnteredIn(a) + EnteredIn(b)
    ensures HandledIn(a + b) == HandledIn(a) + HandledIn(b)
  {
    hide EnteredIn, HandledIn;
    ConcatEntered(a, b);
    ConcatHandled(a, b);
  }

  lemma {:induction false} ConcatEntered(a: seq<Event>, b: seq<Event>)
    ensures EnteredIn(a + b) == EnteredIn(a) + EnteredIn(b)
  {
    if a == [] {
      assert a + b == b;
    } else {
      assert (a + b)[1..] == a[1..] + b;
      ConcatEntered(a[1..], b);
    }
  }

  lemma {:induction false} ConcatHandled(a: seq<Event>, b: seq<Event>)
    ensures HandledIn(a + b) == HandledIn(a) + HandledIn(b)
  {
    if a == [] {
      assert a + b == b;
    } else {
      assert (a + b)[1..] == a[1..] + b;
      ConcatHandled(a[1..], b);
    }
  }

  /** How many filters, from position `i`, are reached: up to the first that does not go on. */
  function Reached(filters: seq<Filter>, i: nat): (k: nat)
    requires i <= |filters|
    ensures i <= k <= |filters| && (i < |filters| ==> i < k)
    decreases |filters| - i
  {
    if i == |filters| then i else if filters[i].does.CallNext? then
      (if i + 1 == |filters| then i + 1 else Reached(filters, i + 1))
    else i + 1
  }

  function Names(filters: seq<Filter>): (names: seq<string>)
    ensures |names| == |filters|
  {
    seq(|filters|, i requires 0 <= i < |filters| => filters[i].name)
  }

  lemma QuietBehaviour(b: Behaviour, c: Context, env: Env)
    requires b.Calls() == 0
    ensures RunBehaviour(b, c, env).events == []
  {
  }

  /** The events of a filter that calls on at most once are those of its one call. */
  lemma OneCall(c: Context, env: Env)
    requires c.filter.does.Calls() <= 1
    ensures var b := c.filter.does;
      RunBehaviour(b, c, env).events ==
        if b.CallNext? then Next(c, env).events
        else if b.CallHandler? then ProcessHandler(c.handler, env).events
        else []
  {
    var b := c.filter.does;
    if b.CallNext? || b.CallHandler? {
      QuietBehaviour(b.after, c, env);
      QuietBehaviour(b.caught, c, env);
    }
  }

  lemma HandlerEvents(h: Handler, env: Env)
    requires env.request && env.response
    ensures EnteredIn(ProcessHandler(h, env).events) == [] && HandledIn(ProcessHandler(h, env).events) == 1
  {
    assert [Handled] + [ExceptionHandled] == [Handled, ExceptionHandled];
    assert [Handled, ExceptionHandled][1..] == [ExceptionHandled];
  }

  /** A context's events: its filter, then what the filter's one call does. */
  lemma ContextEvents(c: Context, env: Env)
    requires c.filter.does.Calls() <= 1 && env.request && env.response
    ensures var b, r := c.filter.does, DoFilter(c, env);
      var called := if b.CallNext? then Next(c, env).events
                    else if b.CallHandler? then ProcessHandler(c.handler, env).events else [];
      EnteredIn(r.events) == [c.filter.name] + EnteredIn(called) && HandledIn(r.events) == HandledIn(called)
  {
    OneCall(c, env);
    var body := RunBehaviour(c.filter.does, c, env);
    ConcatEvents([Entered(c.filter.name)], body.events);
    ConcatEvents([Entered(c.filter.name)] + body.events, [ExceptionHandled]);
  }

  predicate CallsOn(b: Behaviour) {
    b.CallNext? || b.CallHandler?
  }

  /** What a filter's one call leads to, in terms of the chain. */
  lemma CallEvents(filters: seq<Filter>, i: nat, h: Handler, env: Env)
    requires i < |filters| && filters[i].does.Calls() <= 1 && env.request && env.response
    ensures var b, r := filters[i].does, DoFilter(ContextAt(filters, i, h), env);
      && (b.CallNext? && i + 1 < |filters| ==>
            var rest := DoFilter(ContextAt(filters, i + 1, h), env);
            && EnteredIn(r.events) == [filters[i].name] + EnteredIn(rest.events)
            && HandledIn(r.events) == HandledIn(rest.events))
      && (!b.CallNext? || i + 1 == |filters| ==>
            EnteredIn(r.events) == [filters[i].name]
            && HandledIn(r.events) == if CallsOn(b) then 1 else 0)
  {
    ContextEvents(ContextAt(filters, i, h), env);
    HandlerEvents(h, env);
    NextOf(filters, i, h, env);
    NoEvents();
  }

  /** The names of the filters reached from position `i`, one by one. */
  function ReachedNames(filters: seq<Filter>, i: nat): seq<string>
    requires i < |filters|
    decreases |filters| - i
  {
    [filters[i].name] + if filters[i].does.CallNext? && i + 1 < |filters| then ReachedNames(filters, i + 1) else []
  }

  lemma {:induction false} ReachedNamesAre(filters: seq<Filter>, i: nat)
    requires i < |filters|
    ensures ReachedNames(filters, i) == Names(filters)[i..Reached(filters, i)]
    decreases |filters| - i
  {
    var k := Reached(filters, i);
    assert Names(filters)[i..k] == [filters[i].name] + Names(filters)[i + 1..k];
    if filters[i].does.CallNext? && i + 1 < |filters| {
      ReachedNamesAre(filters, i + 1);
    }
  }

  /** The handler runs after the last filter reached: that filter calls it, or calls `Next`. */
  predicate EndsInHandler(filters: seq<Filter>) {
    filters != [] && CallsOn(filters[Reached(filters, 0) - 1].does)
  }


  lemma {:induction false} ChainEntered(filters: seq<Filter>, i: nat, h: Handler, env: Env)
    requires i < |filters| && env.request && env.response
    requires forall f <- filters :: f.does.Calls() <= 1
    ensures EnteredIn(DoFilter(ContextAt(filters, i, h), env).events) == ReachedNames(filters, i)
    decreases |filters| - i
  {
    assert filters[i] in filters;
    hide DoFilter, ContextAt, EnteredIn, HandledIn, Behaviour.Calls, CallsOn;
    CallEvents(filters, i, h, env);
    if filters[i].does.CallNext? && i + 1 < |filters| {
      ChainEntered(filters, i + 1, h, env);
    }
  }

  lemma {:induction false} ChainHandled(filters: seq<Filter>, i: nat, h: Handler, env: Env)
    requires i < |filters| && env.request && env.response
    requires forall f <- filters :: f.does.Calls() <= 1
    ensures HandledIn(DoFilter(ContextAt(filters, i, h), env).events)
         == if CallsOn(filters[Reached(filters, i) - 1].does) then 1 else 0
    decreases |filters| - i
  {
    assert filters[i] in filters;
    hide DoFilter, ContextAt, EnteredIn, HandledIn, Behaviour.Calls, CallsOn;
    CallEvents(filters, i, h, env);
    if filters[i].does.CallNext? && i + 1 < |filters| {
      ChainHandled(filters, i + 1, h, env);
    }
  }

  lemma NextOf(filters: seq<Filter>, i: nat, h: Handler, env: Env)
    requires i < |filters|
    ensures var c := ContextAt(filters, i, h);
      c.filter == filters[i] && c.handler == h &&
      Next(c, env) == if i + 1 < |filters| then DoFilter(ContextAt(filters, i + 1, h), env) else ProcessHandler(h, env)
  {
  }

  lemma NoEvents()
    ensures EnteredIn([]) == [] && HandledIn([]) == 0
  {
  }

  /** A configured chain of filters that each call on at most once enters, in configured order,
      exactly the filters up to the first that does not call `Next`, and runs the handler once if
      the last filter entered calls on, and otherwise not at all. */
  lemma ChainRunsInOrder(filters: seq<Filter>, h: Handler, env: Env)
    requires filters != [] && env.request && env.response
    requires forall f <- filters :: f.does.Calls() <= 1
    ensures var r := DoFilter(ContextAt(filters, 0, h), env);
      && EnteredIn(r.events) == Names(filters)[..Reached(filters, 0)]
      && HandledIn(r.events) == (if EndsInHandler(filters) then 1 else 0)
  {
    ChainEntered(filters, 0, h, env);
    ChainHandled(filters, 0, h, env);
    ReachedNamesAre(filters, 0);
  }

  /** The filters reached stop at the first that does not call `Next`. */
  lemma {:induction false} ReachedStops(filters: seq<Filter>, i: nat)
    requires i < |filters|
    ensures var k := Reached(filters, i);
      && (forall j | i <= j < k - 1 :: filters[j].does.CallNext?)
      && (filters[k - 1].does.CallNext? ==> k == |filters|)
    decreases |filters| - i
  {
    if filters[i].does.CallNext? && i + 1 < |filters| {
      ReachedStops(filters, i + 1);
    }
  }

  // ---------------------------------------------------------------- exceptions

  /** No exception leaves any chain, whatever its filters and its handler do, if and only if the
      exceptions handler does not throw or the pointers stop the request before any filter. */
  lemma NothingEscapesIff(env: Env)
    ensures (forall c: Context :: DoFilter(c, env).ended.Normally?)
      <==> !env.exceptionsHandlerThrows || !env.response || !env.request
  {
    if env.exceptionsHandlerThrows && env.response && env.request {
      var c := Context(Filter("f", Throw), None, Handler(false));
      assert RunBehaviour(Throw, c, env).ended.Raised?;
      assert DoFilter(c, env).ended.Raised?;
    }
  }

  /** Null pointers: without a response nothing happens, without a request the connection is closed
      once, and in neither case is any filter or the handler entered. */
  lemma NullPointers(filters: seq<Filter>, h: Handler, env: Env)
    requires filters != [] && !(env.request && env.response)
    ensures DoFilter(ContextAt(filters, 0, h), env) == ProcessHandler(h, env)
    ensures DoFilter(ContextAt(filters, 0, h), env).events == if env.response then [Closed] else []
  {
  }

  /** The events of a chain whose every exception is handled by the innermost `Process` around it, so
      that every call made by a filter returns normally: no catch block of a filter matters, and a
      filter's own exception is handled right after its last call. */
  function Plain(c: Context): seq<Event>
    decreases c, 1
  {
    [Entered(c.filter.name)] + PlainCalls(c.filter.does, c)
    + if c.filter.does.Raises() then [ExceptionHandled] else []
  }

  function PlainCalls(b: Behaviour, c: Context): seq<Event>
    decreases c, 0, b
  {
    match b
    case Return => []
    case Throw => []
    case CallNext(t, _) => (if c.next.Some? then Plain(c.next.value) else PlainHandler(c.handler)) + PlainCalls(t, c)
    case CallHandler(t, _) => PlainHandler(c.handler) + PlainCalls(t, c)
  }

  function PlainHandler(h: Handler): seq<Event> {
    [Handled] + if h.throws then [ExceptionHandled] else []
  }

  /** Whatever the filters do and wherever they or the handler throw, every exception is handled by
      the innermost `Process` around it, and everything outside sees a normal return. */
  lemma {:induction false} InnermostHandles(c: Context, env: Env)
    requires env.request && env.response && !env.exceptionsHandlerThrows
    ensures DoFilter(c, env) == Result(Plain(c), Normally)
    decreases c, 1
  {
    BehaviourIsPlain(c.filter.does, c, env);
    hide PlainCalls, RunBehaviour;
    var body := RunBehaviour(c.filter.does, c, env);
    assert [Entered(c.filter.name)] + body.events + [] == [Entered(c.filter.name)] + body.events;
  }

  lemma {:induction false} BehaviourIsPlain(b: Behaviour, c: Context, env: Env)
    requires env.request && env.response && !env.exceptionsHandlerThrows
    ensures RunBehaviour(b, c, env) == Result(PlainCalls(b, c), if b.Raises() then Raised else Normally)
    decreases c, 0, b
  {
    assert ProcessHandler(c.handler, env) == Result(PlainHandler(c.handler), Normally);
    match b
    case Return =>
    case Throw =>
    case CallNext(t, _) =>
      BehaviourIsPlain(t, c, env);
      if c.next.Some? {
        InnermostHandles(c.next.value, env);
      }
    case CallHandler(t, _) => BehaviourIsPlain(t, c, env);
  }

  /** Where a filter goes on after a call, whatever the exceptions handler does: on its normal way if the
      call returned, and in its catch block if an exception left it, which needs an exceptions handler
      that throws.  What follows is what a filter would do that begins there. */
  lemma WhereACallGoesOn(name: string, t: Behaviour, k: Behaviour, next: Option<Context>, h: Handler, env: Env)
    requires env.request && env.response
    ensures var called := if next.Some? then DoFilter(next.value, env) else ProcessHandler(h, env);
      var on := DoFilter(Context(Filter(name, if called.ended.Normally? then t else k), next, h), env);
      DoFilter(Context(Filter(name, CallNext(t, k)), next, h), env)
        == Result([Entered(name)] + called.events + on.events[1..], on.ended)
    ensures var called := ProcessHandler(h, env);
      var on := DoFilter(Context(Filter(name, if called.ended.Normally? then t else k), next, h), env);
      DoFilter(Context(Filter(name, CallHandler(t, k)), next, h), env)
        == Result([Entered(name)] + called.events + on.events[1..], on.ended)
    ensures ProcessHandler(h, env).ended.Raised? <==> h.throws && env.exceptionsHandlerThrows
  {
    var called := if next.Some? then DoFilter(next.value, env) else ProcessHandler(h, env);
    GoesOn(name, CallNext(t, k), if called.ended.Normally? then t else k, called, next, h, env);
    var handled := ProcessHandler(h, env);
    GoesOn(name, CallHandler(t, k), if handled.ended.Normally? then t else k, handled, next, h, env);
  }

  lemma GoesOn(
    name: string, b: Behaviour, on: Behaviour, called: Result, next: Option<Context>, h: Handler, env: Env)
    requires env.request && env.response
    requires b.CallNext? ==>
      && called == (if next.Some? then DoFilter(next.value, env) else ProcessHandler(h, env))
      && on == (if called.ended.Normally? then b.after else b.caught)
    requires !b.CallNext? ==>
      && b.CallHandler? && called == ProcessHandler(h, env)
      && on == (if called.ended.Normally? then b.after else b.caught)
    ensures var rest := DoFilter(Context(Filter(name, on), next, h), env);
      DoFilter(Context(Filter(name, b), next, h), env)
        == Result([Entered(name)] + called.events + rest.events[1..], rest.ended)
  {
    var c, d := Context(Filter(name, b), next, h), Context(Filter(name, on), next, h);
    BodyGoesOn(b, on, called, c, d, env);
    hide RunBehaviour, DoFilter;
    Entering(c, env);
    Entering(d, env);
    var rest := RunBehaviour(on, d, env);
    Splice(Entered(name), called.events, rest.events, if rest.ended.Normally? then [] else [ExceptionHandled]);
  }

  lemma BodyGoesOn(b: Behaviour, on: Behaviour, called: Result, c: Context, d: Context, env: Env)
    requires c.next == d.next && c.handler == d.handler && (b.CallNext? || b.CallHandler?)
    requires called == if b.CallHandler? then ProcessHandler(c.handler, env) else Next(c, env)
    requires on == if called.ended.Normally? then b.after else b.caught
    ensures var rest := RunBehaviour(on, d, env);
      RunBehaviour(b, c, env) == Result(called.events + rest.events, rest.ended)
  {
    SameFrom(on, c, d, env);
    hide Next, ProcessHandler;
  }

  lemma Splice(e: Event, called: seq<Event>, rest: seq<Event>, tail: seq<Event>)
    ensures ([e] + (rest + tail))[1..] == rest + tail
    ensures [e] + ((called + rest) + tail) == [e] + called + (rest + tail)
  {
  }

  /** A filter's events: its entry, what it does, and the handling of what it throws. */
  lemma Entering(c: Context, env: Env)
    requires env.request && env.response
    ensures var body := RunBehaviour(c.filter.does, c, env);
      DoFilter(c, env) == Result(
        [Entered(c.filter.name)] + (body.events + if body.ended.Normally? then [] else [ExceptionHandled]),
        if body.ended.Normally? || !env.exceptionsHandlerThrows then Normally else Raised)
  {
    hide RunBehaviour;
    var body := RunBehaviour(c.filter.does, c, env);
    assert [Entered(c.filter.name)] + body.events + [ExceptionHandled]
        == [Entered(c.filter.name)] + (body.events + [ExceptionHandled]);
  }

  /** A behaviour depends on its context's links only. */
  lemma {:induction false} SameFrom(b: Behaviour, c: Context, d: Context, env: Env)
    requires c.next == d.next && c.handler == d.handler
    ensures RunBehaviour(b, c, env) == RunBehaviour(b, d, env)
    decreases b
  {
    match b
    case Return =>
    case Throw =>
    case CallNext(t, k) =>
      SameFrom(t, c, d, env);
      SameFrom(k, c, d, env);
    case CallHandler(t, k) =>
      SameFrom(t, c, d, env);
      SameFrom(k, c, d, env);
  }

  function WithCaught(c: Context, k: Behaviour): Context {
    Context(Filter(c.filter.name, c.filter.does.WithCaught(k)),
            match c.next case None => None case Some(n) => Some(WithCaught(n, k)), c.handler)
  }

  /** So a catch block around `Next()` or `HandleRequest()` is dead code in every filter: replacing
      all of them by anything changes nothing. */
  lemma CatchBlocksAreDead(c: Context, env: Env, k: Behaviour)
    requires !env.exceptionsHandlerThrows
    ensures DoFilter(WithCaught(c, k), env) == DoFilter(c, env)
  {
    if env.request && env.response {
      InnermostHandles(c, env);
      InnermostHandles(WithCaught(c, k), env);
      PlainWithCaught(c, k);
    }
  }

  lemma {:induction false} PlainWithCaught(c: Context, k: Behaviour)
    ensures Plain(WithCaught(c, k)) == Plain(c)
    decreases c, 1
  {
    CallsWithCaught(c.filter.does, c, k);
  }

  lemma {:induction false} CallsWithCaught(b: Behaviour, c: Context, k: Behaviour)
    ensures PlainCalls(b.WithCaught(k), WithCaught(c, k)) == PlainCalls(b, c)
    ensures b.WithCaught(k).Raises() == b.Raises()
    decreases c, 0, b
  {
    match b
    case Return =>
    case Throw =>
    case CallNext(t, _) =>
      CallsWithCaught(t, c, k);
      if c.next.Some? {
        PlainWithCaught(c.next.value, k);
      }
    case CallHandler(t, _) => CallsWithCaught(t, c, k);
  }

  function HandlingsIn(events: seq<Event>): nat {
    if events == [] then 0 else (if events[0].ExceptionHandled? then 1 else 0) + HandlingsIn(events[1..])
  }

  /** How many of the bodies run threw: the filters entered whose name is in `throwing`, and the
      handler's runs if it throws. */
  function ThrownIn(events: seq<Event>, throwing: set<string>, h: Handler): nat {
    if events == [] then 0
    else
      var e := events[0];
      (if (e.Entered? && e.filter in throwing) || (e.Handled? && h.throws) then 1 else 0)
      + ThrownIn(events[1..], throwing, h)
  }

  /** `throwing` names the filters of the chain whose own code ends by throwing, and `h` is its
      handler. */
  ghost predicate Describes(throwing: set<string>, h: Handler, c: Context) {
    && (c.filter.name in throwing <==> c.filter.does.Raises()) && c.handler == h
    && (c.next.Some? ==> Describes(throwing, h, c.next.value))
  }

  lemma {:induction false} ConcatHandlings(a: seq<Event>, b: seq<Event>, throwing: set<string>, h: Handler)
    ensures HandlingsIn(a + b) == HandlingsIn(a) + HandlingsIn(b)
    ensures ThrownIn(a + b, throwing, h) == ThrownIn(a, throwing, h) + ThrownIn(b, throwing, h)
  {
    if a == [] {
      assert a + b == b;
    } else {
      assert (a + b)[1..] == a[1..] + b;
      ConcatHandlings(a[1..], b, throwing, h);
    }
  }

  ghost predicate Balanced(events: seq<Event>, throwing: set<string>, h: Handler) {
    HandlingsIn(events) == ThrownIn(events, throwing, h)
  }

  lemma BalancedConcat(a: seq<Event>, b: seq<Event>, throwing: set<string>, h: Handler)
    requires Balanced(a, throwing, h) && Balanced(b, throwing, h)
    ensures Balanced(a + b, throwing, h)
  {
    hide HandlingsIn, ThrownIn;
    ConcatHandlings(a, b, throwing, h);
  }

  lemma BalancedHandler(throwing: set<string>, h: Handler)
    ensures Balanced(PlainHandler(h), throwing, h) && Balanced([], throwing, h)
  {
    ConcatHandlings([Handled], if h.throws then [ExceptionHandled] else [], throwing, h);
  }

  lemma BalancedBody(name: string, raises: bool, body: seq<Event>, throwing: set<string>, h: Handler)
    requires Balanced(body, throwing, h) && (name in throwing <==> raises)
    ensures Balanced([Entered(name)] + body + if raises then [ExceptionHandled] else [], throwing, h)
  {
    var tail := if raises then [ExceptionHandled] else [];
    ConcatHandlings([Entered(name)], body, throwing, h);
    ConcatHandlings([Entered(name)] + body, tail, throwing, h);
    assert HandlingsIn([Entered(name)]) == 0 && ThrownIn([Entered(name)], throwing, h) == if raises then 1 else 0;
    assert HandlingsIn(tail) == (if raises then 1 else 0) && ThrownIn(tail, throwing, h) == 0;
  }

  /** Each body that throws is handled exactly once, however often it runs: over any chain, exceptions
      are handled as many times as filters whose own code throws, or a throwing handler, were run. */
  lemma EachExceptionHandledOnce(c: Context, env: Env, throwing: set<string>, h: Handler)
    requires !env.exceptionsHandlerThrows && Describes(throwing, h, c)
    ensures var events := DoFilter(c, env).events; HandlingsIn(events) == ThrownIn(events, throwing, h)
  {
    if env.request && env.response {
      InnermostHandles(c, env);
      PlainBalanced(c, throwing, h);
    }
  }

  lemma {:induction false} PlainBalanced(c: Context, throwing: set<string>, h: Handler)
    requires Describes(throwing, h, c)
    ensures Balanced(Plain(c), throwing, h)
    decreases c, 1
  {
    hide Balanced, PlainCalls;
    CallsBalanced(c.filter.does, c, throwing, h);
    BalancedBody(c.filter.name, c.filter.does.Raises(), PlainCalls(c.filter.does, c), throwing, h);
  }

  lemma {:induction false} CallsBalanced(b: Behaviour, c: Context, throwing: set<string>, h: Handler)
    requires Describes(throwing, h, c)
    ensures Balanced(PlainCalls(b, c), throwing, h)
    decreases c, 0, b
  {
    hide Balanced, PlainHandler;
    BalancedHandler(throwing, h);
    match b
    case Return =>
    case Throw =>
    case CallNext(t, _) =>
      CallsBalanced(t, c, throwing, h);
      if c.next.Some? {
        PlainBalanced(c.next.value, throwing, h);
        BalancedConcat(Plain(c.next.value), PlainCalls(t, c), throwing, h);
      } else {
        BalancedConcat(PlainHandler(h), PlainCalls(t, c), throwing, h);
      }
    case CallHandler(t, _) =>
      CallsBalanced(t, c, throwing, h);
      BalancedConcat(PlainHandler(h), PlainCalls(t, c), throwing, h);
  }
}
