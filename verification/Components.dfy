/** The component container: `Components::Get` creates a component on first use by running its
    constructor, which itself calls `Get` for what it depends on; `MakeComponents` walks the
    factory's hash map, in whatever order that has, creating what is not there yet. */
module Components {
  import opened Options

  type Name = string
  type Kind = string   // a C++ type that an instance can be cast to

  datatype Request = Request(name: Name, kind: Kind)

  /** A registered component: what its instances can be cast to, and the `Get` calls that its
      constructor makes, in order. */
  datatype Registration = Registration(kinds: set<Kind>, requests: seq<Request>)

  type Factory = map<Name, Registration>

  /** `serial` tells instances apart: it is the number of constructions completed before. */
  datatype Instance = Instance(serial: nat, kinds: set<Kind>)

  datatype Error = NotRegistered(name: Name) | WrongType(name: Name, kind: Kind)

  datatype Outcome = Made(instance: Instance) | Threw(error: Error)

  /** One `Get` as seen by the constructor of `caller`. */
  datatype Handed = Handed(caller: Name, request: Request, instance: Instance)

  /** The container's map, with a log of completed constructions and of instances handed out. */
  datatype Container = Container(components: map<Name, Instance>, built: seq<Name>, handed: seq<Handed>)
  {
    /** `components_.insert`: an existing entry stays. */
    function Add(name: Name, instance: Instance): Container {
      if name in components then this else this.(components := components[name := instance])
    }
  }

  /** Circular dependencies are not supported: some `rank` falls along every request. */
  ghost predicate Acyclic(factory: Factory, rank: Name -> nat) {
    forall name <- factory :: forall r <- factory[name].requests :: rank(r.name) < rank(name)
  }

  /** Every request of the component names a registered component of the requested kind. */
  predicate Satisfiable(factory: Factory, name: Name)
    requires name in factory
  {
    forall r <- factory[name].requests :: r.name in factory && r.kind in factory[r.name].kinds
  }

  // ---------------------------------------------------------------- what the calls compute

  /** The component's constructor: its requests in order, stopping at the first exception. */
  ghost function Construct(factory: Factory, rank: Name -> nat, c: Container, name: Name, done: nat)
    : (r: (Container, Outcome))
    requires Acyclic(factory, rank) && name in factory && done <= |factory[name].requests|
    decreases rank(name), 1, |factory[name].requests| - done
  {
    if done == |factory[name].requests| then
      (c.(built := c.built + [name]), Made(Instance(|c.built|, factory[name].kinds)))
    else
      var q := factory[name].requests[done];
      var (c1, got) := Get(factory, rank, c, q);
      if got.Threw? then (c1, got)
      else Construct(factory, rank, c1.(handed := c1.handed + [Handed(name, q, got.instance)]), name, done + 1)
  }

  ghost function Get(factory: Factory, rank: Name -> nat, c: Container, q: Request): (r: (Container, Outcome))
    requires Acyclic(factory, rank)
    decreases rank(q.name), 2
  {
    if q.name in c.components then
      (c, if q.kind in c.components[q.name].kinds then Made(c.components[q.name]) else Threw(WrongType(q.name, q.kind)))
    else if q.name !in factory then
      (c, Threw(NotRegistered(q.name)))
    else
      var (c1, made) := Construct(factory, rank, c, q.name, 0);
      if made.Threw? then (c1, made)
      else if q.kind !in made.instance.kinds then (c1, Threw(WrongType(q.name, q.kind)))
      else (c1.Add(q.name, made.instance), made)
  }

  /** The walk over the factory's entries; `None` for the error when all went well. */
  datatype Walk = Finished | Failed(error: Error)

  ghost function MakeAll(factory: Factory, rank: Name -> nat, c: Container, order: seq<Name>): (r: (Container, Walk))
    requires Acyclic(factory, rank) && forall name <- order :: name in factory
    decreases |order|
  {
    if order == [] then (c, Finished)
    else if order[0] in c.components then MakeAll(factory, rank, c, order[1..])
    else
      var (c1, made) := Construct(factory, rank, c, order[0], 0);
      if made.Threw? then (c1, Failed(made.error))
      else MakeAll(factory, rank, c1.Add(order[0], made.instance), order[1..])
  }

  // ---------------------------------------------------------------- the container object

  class ComponentsContainer {
    const factory: Factory
    var components: map<Name, Instance>
    var built: seq<Name>
    var handed: seq<Handed>

    ghost function View(): Container
      reads this
    {
      Container(components, built, handed)
    }

    constructor (factory: Factory)
      ensures this.factory == factory && View() == Container(map[], [], [])
    {
      this.factory := factory;
      components, built, handed := map[], [], [];
    }

    /** A null value is refused with an exception. */
    method Add(name: Name, value: Option<Instance>) returns (threw: bool)
      modifies this`components
      ensures threw <==> value.None?
      ensures View() == if value.None? then old(View()) else old(View()).Add(name, value.value)
      ensures value.None? || name in old(components) ==> components == old(components)
      ensures value.Some? && name !in old(components) ==> components == old(components)[name := value.value]
    {
      if value.None? {
        return true;
      }
      if name !in components {
        components := components[name := value.value];
      }
      threw := false;
    }

    /** The creation callback registered under `name`. */
    method ConstructOne(name: Name, ghost rank: Name -> nat) returns (made: Outcome)
      requires Acyclic(factory, rank) && name in factory
      modifies this
      ensures (View(), made) == Construct(factory, rank, old(View()), name, 0)
      decreases rank(name), 1
    {
      var requests := factory[name].requests;
      var done := 0;
      while done < |requests|
        invariant done <= |requests|
        invariant Construct(factory, rank, View(), name, done) == Construct(factory, rank, old(View()), name, 0)
      {
        var got := GetComponent(requests[done], rank);
        if got.Threw? {
          return got;
        }
        handed := handed + [Handed(name, requests[done], got.instance)];
        done := done + 1;
      }
      made := Made(Instance(|built|, factory[name].kinds));
      built := built + [name];
    }

    method GetComponent(q: Request, ghost rank: Name -> nat) returns (got: Outcome)
      requires Acyclic(factory, rank)
      modifies this
      ensures (View(), got) == Get(factory, rank, old(View()), q)
      decreases rank(q.name), 2
    {
      if q.name in components {
        var found := components[q.name];
        return if q.kind in found.kinds then Made(found) else Threw(WrongType(q.name, q.kind));
      }
      if q.name !in factory {
        return Threw(NotRegistered(q.name));
      }
      got := ConstructOne(q.name, rank);
      if got.Threw? {
        return;
      }
      if q.kind !in got.instance.kinds {
        return Threw(WrongType(q.name, q.kind));
      }
      var threw := Add(q.name, Some(got.instance));
    }

    /** `order` is the iteration order of the factory's hash map. */
    method MakeComponents(order: seq<Name>, ghost rank: Name -> nat) returns (walk: Walk)
      requires Acyclic(factory, rank) && forall name <- order :: name in factory
      modifies this
      ensures (View(), walk) == MakeAll(factory, rank, old(View()), order)
    {
      for i := 0 to |order|
        invariant MakeAll(factory, rank, View(), order[i..]) == MakeAll(factory, rank, old(View()), order)
      {
        assert order[i..][1..] == order[i + 1..];
        if order[i] in components {
          continue;
        }
        var made := ConstructOne(order[i], rank);
        if made.Threw? {
          return Failed(made.error);
        }
        var threw := Add(order[i], Some(made.instance));
      }
      walk := Finished;
    }
  }

  // ---------------------------------------------------------------- what holds of every container

  /** Whatever the factory: entries are registered, of their registered kinds, and were built
      from satisfiable requests. */
  ghost predicate Sound(factory: Factory, c: Container) {
    forall name <- c.components ::
      name in factory && c.components[name].kinds == factory[name].kinds && Satisfiable(factory, name)
  }

  ghost predicate Grows(a: Container, b: Container) {
    && (forall name <- a.components :: name in b.components && b.components[name] == a.components[name])
    && a.built <= b.built && a.handed <= b.handed
  }

  /** Only components of lesser rank are added while `name` is under construction. */
  ghost predicate AddsBelow(rank: Name -> nat, c: Container, d: Container, name: Name) {
    forall n <- d.components :: n in c.components || rank(n) < rank(name)
  }

  ghost predicate Resolves(factory: Factory, q: Request) {
    q.name in factory && q.kind in factory[q.name].kinds
  }

  lemma {:induction false} ConstructSound(factory: Factory, rank: Name -> nat, c: Container, name: Name, done: nat)
    requires Acyclic(factory, rank) && name in factory && done <= |factory[name].requests|
    requires Sound(factory, c)
    ensures var (d, made) := Construct(factory, rank, c, name, done);
      && Sound(factory, d) && Grows(c, d) && AddsBelow(rank, c, d, name)
      && (made.Made? ==>
            && made.instance.kinds == factory[name].kinds
            && forall i | done <= i < |factory[name].requests| :: Resolves(factory, factory[name].requests[i]))
    decreases rank(name), 1, |factory[name].requests| - done
  {
    if done < |factory[name].requests| {
      var q := factory[name].requests[done];
      GetSound(factory, rank, c, q);
      var (c1, got) := Get(factory, rank, c, q);
      if got.Made? {
        ConstructSound(factory, rank, c1.(handed := c1.handed + [Handed(name, q, got.instance)]), name, done + 1);
      }
    }
  }

  lemma {:induction false} GetSound(factory: Factory, rank: Name -> nat, c: Container, q: Request)
    requires Acyclic(factory, rank) && Sound(factory, c)
    ensures var (d, got) := Get(factory, rank, c, q);
      && Sound(factory, d) && Grows(c, d)
      && (forall n <- d.components :: n in c.components || n == q.name || rank(n) < rank(q.name))
      && (got.Made? ==> Resolves(factory, q) && q.name in d.components && d.components[q.name] == got.instance)
    decreases rank(q.name), 2
  {
    if q.name !in c.components && q.name in factory {
      ConstructSound(factory, rank, c, q.name, 0);
    }
  }

  lemma {:induction false} MakeAllSound(factory: Factory, rank: Name -> nat, c: Container, order: seq<Name>)
    requires Acyclic(factory, rank) && forall name <- order :: name in factory
    requires Sound(factory, c)
    ensures var (d, walk) := MakeAll(factory, rank, c, order);
      && Sound(factory, d) && Grows(c, d)
      && (walk.Finished? ==> forall name <- order :: name in d.components)
    decreases |order|
  {
    if order != [] {
      if order[0] in c.components {
        MakeAllSound(factory, rank, c, order[1..]);
      } else {
        ConstructSound(factory, rank, c, order[0], 0);
        var (c1, made) := Construct(factory, rank, c, order[0], 0);
        if made.Made? {
          MakeAllSound(factory, rank, c1.Add(order[0], made.instance), order[1..]);
        }
      }
      assert order == [order[0]] + order[1..];
    }
  }

  /** The exception tells the truth: some registered constructor makes a request that cannot be
      met, for the reason given. */
  ghost predicate Genuine(factory: Factory, e: Error) {
    match e
    case NotRegistered(n) =>
      n !in factory && exists name <- factory :: exists r <- factory[name].requests :: r.name == n
    case WrongType(n, k) =>
      n in factory && k !in factory[n].kinds && exists name <- factory :: Request(n, k) in factory[name].requests
  }

  lemma {:induction false} ConstructThrows(factory: Factory, rank: Name -> nat, c: Container, name: Name, done: nat)
    requires Acyclic(factory, rank) && name in factory && done <= |factory[name].requests| && Sound(factory, c)
    ensures var made := Construct(factory, rank, c, name, done).1; made.Threw? ==> Genuine(factory, made.error)
    decreases rank(name), 1, |factory[name].requests| - done
  {
    if done < |factory[name].requests| {
      var q := factory[name].requests[done];
      assert q in factory[name].requests;
      GetThrows(factory, rank, c, name, q);
      GetSound(factory, rank, c, q);
      hide Get, Genuine, Acyclic, Sound;
      var (c1, got) := Get(factory, rank, c, q);
      if got.Made? {
        var c2 := c1.(handed := c1.handed + [Handed(name, q, got.instance)]);
        assert Sound(factory, c2) by { SameComponents(factory, c1, c2); }
        ConstructThrows(factory, rank, c2, name, done + 1);
      }
    }
  }

  lemma SameComponents(factory: Factory, c: Container, d: Container)
    requires Sound(factory, c) && d.components == c.components
    ensures Sound(factory, d)
  {
  }

  lemma {:induction false} GetThrows(factory: Factory, rank: Name -> nat, c: Container, name: Name, q: Request)
    requires Acyclic(factory, rank) && Sound(factory, c) && name in factory && q in factory[name].requests
    ensures var got := Get(factory, rank, c, q).1; got.Threw? ==> Genuine(factory, got.error)
    decreases rank(q.name), 2
  {
    assert q == Request(q.name, q.kind);
    if q.name !in c.components && q.name in factory {
      ConstructThrows(factory, rank, c, q.name, 0);
      ConstructSound(factory, rank, c, q.name, 0);
    }
  }

  /** `MakeComponents` fails only for a genuine reason, whatever the walk's order. */
  lemma {:induction false} FailureIsGenuine(factory: Factory, rank: Name -> nat, c: Container, order: seq<Name>)
    requires Acyclic(factory, rank) && Sound(factory, c) && forall name <- order :: name in factory
    ensures var walk := MakeAll(factory, rank, c, order).1; walk.Failed? ==> Genuine(factory, walk.error)
    decreases |order|
  {
    if order != [] {
      hide Genuine;
      if order[0] in c.components {
        FailureIsGenuine(factory, rank, c, order[1..]);
      } else {
        ConstructThrows(factory, rank, c, order[0], 0);
        ConstructSound(factory, rank, c, order[0], 0);
        var (c1, made) := Construct(factory, rank, c, order[0], 0);
        if made.Made? {
          FailureIsGenuine(factory, rank, c1.Add(order[0], made.instance), order[1..]);
        }
      }
    }
  }

  // ---------------------------------------------------------------- well-formed factories

  ghost predicate WellFormed(factory: Factory) {
    forall name <- factory :: Satisfiable(factory, name)
  }

  /** Every construction completes after those of all the components it requested. */
  ghost predicate RequestsFirst(factory: Factory, built: seq<Name>) {
    forall i | 0 <= i < |built| ::
      built[i] in factory && forall r <- factory[built[i]].requests :: r.name in built[..i]
  }

  lemma RequestsFirstSnoc(factory: Factory, built: seq<Name>, name: Name)
    requires RequestsFirst(factory, built) && name in factory
    requires forall r <- factory[name].requests :: r.name in built
    ensures RequestsFirst(factory, built + [name])
  {
    forall i | 0 <= i <= |built|
      ensures forall r <- factory[(built + [name])[i]].requests :: r.name in (built + [name])[..i]
    {
      assert (built + [name])[..i] == built[..i];
      if i == |built| {
        assert built[..i] == built;
      }
    }
  }

  /** What a container looks like between constructions: each component was built exactly once,
      after everything it requested, and each request was answered with the one stored instance. */
  ghost predicate Tidy(factory: Factory, c: Container) {
    Sound(factory, c) && BuiltOnce(c) && RequestsFirst(factory, c.built) && AllAnswered(factory, c)
  }

  ghost predicate BuiltOnce(c: Container) {
    && (forall name :: name in c.components <==> name in c.built)
    && (forall i, j | 0 <= i < j < |c.built| :: c.built[i] != c.built[j])
    && (forall name <- c.components ::
          c.components[name].serial < |c.built| && c.built[c.components[name].serial] == name)
  }

  ghost predicate AllAnswered(factory: Factory, c: Container)
    requires Sound(factory, c)
  {
    && (forall h <- c.handed :: h.request.name in c.components && c.components[h.request.name] == h.instance)
    && (forall name <- c.components :: Answered(factory, c, name, |factory[name].requests|))
  }

  /** The first `done` requests of `name` were answered. */
  ghost predicate Answered(factory: Factory, c: Container, name: Name, done: nat)
    requires name in factory && done <= |factory[name].requests|
  {
    forall i | 0 <= i < done :: var r := factory[name].requests[i];
      r.name in c.components && Handed(name, r, c.components[r.name]) in c.handed
  }

  lemma {:induction false} ConstructTidy(factory: Factory, rank: Name -> nat, c: Container, name: Name, done: nat)
    requires Acyclic(factory, rank) && WellFormed(factory)
    requires name in factory && done <= |factory[name].requests| && name !in c.components
    requires Tidy(factory, c) && Answered(factory, c, name, done)
    ensures var (d, made) := Construct(factory, rank, c, name, done);
      made.Made? && Tidy(factory, d.Add(name, made.instance))
    decreases rank(name), 1, |factory[name].requests| - done
  {
    assert Satisfiable(factory, name);
    hide Tidy, Answered, WellFormed, Get, Construct;
    if done == |factory[name].requests| {
      ConstructEnds(factory, rank, c, name);
      FinishTidy(factory, c, name);
    } else {
      var q := factory[name].requests[done];
      assert q in factory[name].requests;
      GetTidy(factory, rank, c, q);
      RequestTidy(factory, rank, c, name, done);
      var next := AfterRequest(factory, rank, c, name, done);
      ConstructTidy(factory, rank, next, name, done + 1);
    }
  }

  lemma ConstructEnds(factory: Factory, rank: Name -> nat, c: Container, name: Name)
    requires Acyclic(factory, rank) && name in factory
    ensures var (d, made) := Construct(factory, rank, c, name, |factory[name].requests|);
      made.Made? && d.Add(name, made.instance) == Finish(factory, c, name)
  {
  }

  /** The container with one more request of the constructor answered. */
  lemma AfterRequest(factory: Factory, rank: Name -> nat, c: Container, name: Name, done: nat) returns (next: Container)
    requires Acyclic(factory, rank) && name in factory && done < |factory[name].requests|
    requires Get(factory, rank, c, factory[name].requests[done]).1.Made?
    ensures var q := factory[name].requests[done];
      var (c1, got) := Get(factory, rank, c, q);
      next == c1.(handed := c1.handed + [Handed(name, q, got.instance)])
    ensures Construct(factory, rank, c, name, done) == Construct(factory, rank, next, name, done + 1)
  {
    var (c1, got) := Get(factory, rank, c, factory[name].requests[done]);
    next := c1.(handed := c1.handed + [Handed(name, factory[name].requests[done], got.instance)]);
  }

  /** One request of the constructor answered and logged. */
  lemma RequestTidy(factory: Factory, rank: Name -> nat, c: Container, name: Name, done: nat)
    requires Acyclic(factory, rank) && name in factory && done < |factory[name].requests|
    requires name !in c.components && Tidy(factory, c) && Answered(factory, c, name, done)
    requires var (c1, got) := Get(factory, rank, c, factory[name].requests[done]); got.Made? && Tidy(factory, c1)
    ensures var q := factory[name].requests[done];
      var (c1, got) := Get(factory, rank, c, q);
      var c2 := c1.(handed := c1.handed + [Handed(name, q, got.instance)]);
      Tidy(factory, c2) && Answered(factory, c2, name, done + 1) && name !in c2.components
  {
    assert Sound(factory, c);
    hide Tidy, Answered, Sound, Get, Grows;
    var q := factory[name].requests[done];
    assert q in factory[name].requests && rank(q.name) < rank(name);
    GetSound(factory, rank, c, q);
    var c1 := Get(factory, rank, c, q).0;
    AnsweredGrows(factory, c, c1, name, done);
    HandOverTidy(factory, c1, name, done);
  }

  lemma AnsweredGrows(factory: Factory, c: Container, d: Container, name: Name, done: nat)
    requires name in factory && done <= |factory[name].requests|
    requires Answered(factory, c, name, done) && Grows(c, d)
    ensures Answered(factory, d, name, done)
  {
  }

  lemma HandOverTidy(factory: Factory, c: Container, name: Name, done: nat)
    requires name in factory && done < |factory[name].requests|
    requires Tidy(factory, c) && Answered(factory, c, name, done) && factory[name].requests[done].name in c.components
    ensures var q := factory[name].requests[done];
      var d := c.(handed := c.handed + [Handed(name, q, c.components[q.name])]);
      Tidy(factory, d) && Answered(factory, d, name, done + 1)
  {
    var q := factory[name].requests[done];
    var d := c.(handed := c.handed + [Handed(name, q, c.components[q.name])]);
    assert Grows(c, d);
    AnsweredGrows(factory, c, d, name, done);
    forall n <- c.components ensures Answered(factory, d, n, |factory[n].requests|) {
      AnsweredGrows(factory, c, d, n, |factory[n].requests|);
    }
  }

  /** The container once the construction of `name` is complete and its instance added. */
  function Finish(factory: Factory, c: Container, name: Name): Container
    requires name in factory
  {
    c.(built := c.built + [name]).Add(name, Instance(|c.built|, factory[name].kinds))
  }

  lemma FinishTidy(factory: Factory, c: Container, name: Name)
    requires name in factory && name !in c.components && WellFormed(factory)
    requires Tidy(factory, c) && Answered(factory, c, name, |factory[name].requests|)
    ensures Tidy(factory, Finish(factory, c, name))
  {
    FinishSound(factory, c, name);
    BuiltOnceSnoc(c, name, factory[name].kinds);
    FinishAnswered(factory, c, name);
    FinishOrdered(factory, c, name);
    hide Sound, BuiltOnce, RequestsFirst, AllAnswered, WellFormed, Answered;
    assert Finish(factory, c, name).built == c.built + [name];
  }

  lemma FinishSound(factory: Factory, c: Container, name: Name)
    requires name in factory && name !in c.components && WellFormed(factory) && Sound(factory, c)
    ensures Sound(factory, Finish(factory, c, name)) && Grows(c, Finish(factory, c, name))
  {
    hide Satisfiable;
  }

  lemma FinishAnswered(factory: Factory, c: Container, name: Name)
    requires name in factory && name !in c.components && Sound(factory, c) && AllAnswered(factory, c)
    requires Answered(factory, c, name, |factory[name].requests|)
    requires Sound(factory, Finish(factory, c, name))
    ensures AllAnswered(factory, Finish(factory, c, name))
  {
    hide Sound, Answered;
    var d := Finish(factory, c, name);
    assert d.handed == c.handed && d.components == c.components[name := Instance(|c.built|, factory[name].kinds)];
    forall n <- d.components ensures n in factory && Answered(factory, d, n, |factory[n].requests|) {
      NamesRegistered(factory, c);
      AnsweredGrows(factory, c, d, n, |factory[n].requests|);
    }
  }

  lemma NamesRegistered(factory: Factory, c: Container)
    requires Sound(factory, c)
    ensures forall n <- c.components :: n in factory
  {
  }

  lemma FinishOrdered(factory: Factory, c: Container, name: Name)
    requires name in factory && BuiltOnce(c) && RequestsFirst(factory, c.built)
    requires Answered(factory, c, name, |factory[name].requests|)
    ensures RequestsFirst(factory, c.built + [name])
  {
    forall r <- factory[name].requests ensures r.name in c.built {
      assert r.name in c.components;
    }
    hide RequestsFirst;
    RequestsFirstSnoc(factory, c.built, name);
  }

  lemma BuiltOnceSnoc(c: Container, name: Name, kinds: set<Kind>)
    requires BuiltOnce(c) && name !in c.components
    ensures BuiltOnce(c.(built := c.built + [name]).Add(name, Instance(|c.built|, kinds)))
  {
    forall n ensures n in c.built + [name] <==> n in c.built || n == name {}
  }

  lemma {:induction false} GetTidy(factory: Factory, rank: Name -> nat, c: Container, q: Request)
    requires Acyclic(factory, rank) && WellFormed(factory) && Tidy(factory, c) && Resolves(factory, q)
    ensures var (d, got) := Get(factory, rank, c, q); got.Made? && Tidy(factory, d)
    decreases rank(q.name), 2
  {
    if q.name !in c.components {
      ConstructTidy(factory, rank, c, q.name, 0);
      ConstructSound(factory, rank, c, q.name, 0);
    }
  }

  lemma {:induction false} MakeAllTidy(factory: Factory, rank: Name -> nat, c: Container, order: seq<Name>)
    requires Acyclic(factory, rank) && WellFormed(factory) && Tidy(factory, c)
    requires forall name <- order :: name in factory
    ensures var (d, walk) := MakeAll(factory, rank, c, order); walk.Finished? && Tidy(factory, d)
    decreases |order|
  {
    if order != [] {
      if order[0] in c.components {
        MakeAllTidy(factory, rank, c, order[1..]);
      } else {
        ConstructTidy(factory, rank, c, order[0], 0);
        var (c1, made) := Construct(factory, rank, c, order[0], 0);
        MakeAllTidy(factory, rank, c1.Add(order[0], made.instance), order[1..]);
      }
    }
  }

  // ---------------------------------------------------------------- requests in order

  /** The requests answered to the constructor of `name`, in the order of the log. */
  function HandedTo(handed: seq<Handed>, name: Name): seq<Request> {
    if handed == [] then []
    else (if handed[0].caller == name then [handed[0].request] else []) + HandedTo(handed[1..], name)
  }

  lemma {:induction false} HandedToSnoc(handed: seq<Handed>, h: Handed, name: Name)
    ensures HandedTo(handed + [h], name) == HandedTo(handed, name) + if h.caller == name then [h.request] else []
  {
    if handed == [] {
      assert [] + [h] == [h];
    } else {
      var rest, last := HandedTo(handed[1..], name), if h.caller == name then [h.request] else [];
      var first := if handed[0].caller == name then [handed[0].request] else [];
      HandedToSnoc(handed[1..], h, name);
      assert (handed + [h])[0] == handed[0] && (handed + [h])[1..] == handed[1..] + [h];
      assert HandedTo(handed + [h], name) == first + HandedTo(handed[1..] + [h], name);
      assert first + (rest + last) == (first + rest) + last;
    }
  }

  /** Every component built had its requests answered, each once and in order. */
  ghost predicate AllHanded(factory: Factory, c: Container) {
    forall n <- c.components :: n in factory && HandedTo(c.handed, n) == factory[n].requests
  }

  /** No constructor of a component of rank below `r` has begun that is not complete. */
  ghost predicate NoneBegun(rank: Name -> nat, c: Container, r: nat) {
    forall n | n !in c.components && rank(n) < r :: HandedTo(c.handed, n) == []
  }

  /** Only constructors that have completed meanwhile, and that of `name`, were handed anything. */
  ghost predicate HandsOnly(c: Container, d: Container, name: Name) {
    forall n | n !in d.components && n != name :: HandedTo(d.handed, n) == HandedTo(c.handed, n)
  }

  lemma {:induction false} ConstructHands(factory: Factory, rank: Name -> nat, c: Container, name: Name, done: nat)
    requires Acyclic(factory, rank) && name in factory && done <= |factory[name].requests|
    requires Sound(factory, c) && AllHanded(factory, c) && NoneBegun(rank, c, rank(name)) && name !in c.components
    requires HandedTo(c.handed, name) == factory[name].requests[..done]
    ensures var (d, made) := Construct(factory, rank, c, name, done);
      made.Made? ==>
        && AllHanded(factory, d) && HandsOnly(c, d, name) && name !in d.components
        && HandedTo(d.handed, name) == factory[name].requests
    decreases rank(name), 1, |factory[name].requests| - done
  {
    hide Construct, Get, Sound, AllHanded, NoneBegun, HandsOnly, HandedTo;
    if done == |factory[name].requests| {
      ConstructedHands(factory, rank, c, name);
    } else {
      var q := factory[name].requests[done];
      assert q in factory[name].requests && rank(q.name) < rank(name);
      NoneBegunBelow(rank, c, rank(name), rank(q.name) + 1);
      GetHands(factory, rank, c, q);
      if Get(factory, rank, c, q).1.Threw? {
        ConstructStops(factory, rank, c, name, done);
      } else {
        RequestHands(factory, rank, c, name, done);
        var c2 := AfterRequest(factory, rank, c, name, done);
        ConstructHands(factory, rank, c2, name, done + 1);
        ConstructSound(factory, rank, c2, name, done + 1);
        HandsTrans(c, c2, Construct(factory, rank, c2, name, done + 1).0, name);
      }
    }
  }

  lemma ConstructedHands(factory: Factory, rank: Name -> nat, c: Container, name: Name)
    requires Acyclic(factory, rank) && name in factory && name !in c.components && AllHanded(factory, c)
    ensures var (d, made) := Construct(factory, rank, c, name, |factory[name].requests|);
      AllHanded(factory, d) && HandsOnly(c, d, name) && name !in d.components && d.handed == c.handed
    ensures factory[name].requests[..|factory[name].requests|] == factory[name].requests
  {
    hide HandedTo;
  }

  lemma ConstructStops(factory: Factory, rank: Name -> nat, c: Container, name: Name, done: nat)
    requires Acyclic(factory, rank) && name in factory && done < |factory[name].requests|
    requires Get(factory, rank, c, factory[name].requests[done]).1.Threw?
    ensures Construct(factory, rank, c, name, done).1.Threw?
  {
  }

  lemma NoneBegunBelow(rank: Name -> nat, c: Container, r: nat, q: nat)
    requires NoneBegun(rank, c, r) && q <= r
    ensures NoneBegun(rank, c, q)
  {
    hide HandedTo;
  }

  lemma HandsTrans(c: Container, c2: Container, d: Container, name: Name)
    requires HandsOnly(c, c2, name) && Grows(c2, d)
    ensures HandsOnly(c2, d, name) ==> HandsOnly(c, d, name)
  {
    hide HandedTo;
  }

  /** One request of the constructor answered and logged. */
  lemma RequestHands(factory: Factory, rank: Name -> nat, c: Container, name: Name, done: nat)
    requires Acyclic(factory, rank) && name in factory && done < |factory[name].requests|
    requires Sound(factory, c) && NoneBegun(rank, c, rank(name)) && name !in c.components
    requires HandedTo(c.handed, name) == factory[name].requests[..done]
    requires var (c1, got) := Get(factory, rank, c, factory[name].requests[done]);
      && got.Made? && AllHanded(factory, c1)
      && forall n | n !in c1.components :: HandedTo(c1.handed, n) == HandedTo(c.handed, n)
    ensures var q := factory[name].requests[done];
      var (c1, got) := Get(factory, rank, c, q);
      var c2 := c1.(handed := c1.handed + [Handed(name, q, got.instance)]);
      && Sound(factory, c2) && AllHanded(factory, c2) && NoneBegun(rank, c2, rank(name)) && HandsOnly(c, c2, name)
      && name !in c2.components && HandedTo(c2.handed, name) == factory[name].requests[..done + 1]
  {
    hide Get, HandedTo, AllHanded, NoneBegun, HandsOnly, Sound, Grows;
    var q := factory[name].requests[done];
    assert q in factory[name].requests && rank(q.name) < rank(name);
    GetSound(factory, rank, c, q);
    var (c1, got) := Get(factory, rank, c, q);
    AnswerOne(factory, rank, c, c1, name, done, got.instance);
    SameComponents(factory, c1, c1.(handed := c1.handed + [Handed(name, q, got.instance)]));
  }

  lemma AnswerOne(
    factory: Factory, rank: Name -> nat, c: Container, c1: Container, name: Name, done: nat, instance: Instance)
    requires name in factory && done < |factory[name].requests|
    requires AllHanded(factory, c1) && NoneBegun(rank, c, rank(name)) && Grows(c, c1)
    requires forall n | n !in c1.components :: HandedTo(c1.handed, n) == HandedTo(c.handed, n)
    requires name !in c1.components && HandedTo(c.handed, name) == factory[name].requests[..done]
    ensures var q := factory[name].requests[done];
      var c2 := c1.(handed := c1.handed + [Handed(name, q, instance)]);
      && AllHanded(factory, c2) && NoneBegun(rank, c2, rank(name)) && HandsOnly(c, c2, name)
      && HandedTo(c2.handed, name) == factory[name].requests[..done + 1]
  {
    hide HandedTo;
    var h := Handed(name, factory[name].requests[done], instance);
    forall n ensures HandedTo(c1.handed + [h], n) == HandedTo(c1.handed, n) + if n == name then [h.request] else [] {
      HandedToSnoc(c1.handed, h, n);
    }
    forall n | n != name ensures HandedTo(c1.handed + [h], n) == HandedTo(c1.handed, n) {}
    assert factory[name].requests[..done + 1] == factory[name].requests[..done] + [h.request];
  }

  lemma {:induction false} GetHands(factory: Factory, rank: Name -> nat, c: Container, q: Request)
    requires Acyclic(factory, rank) && Sound(factory, c)
    requires AllHanded(factory, c) && NoneBegun(rank, c, rank(q.name) + 1)
    ensures var (d, got) := Get(factory, rank, c, q);
      got.Made? ==>
        && AllHanded(factory, d)
        && forall n | n !in d.components :: HandedTo(d.handed, n) == HandedTo(c.handed, n)
    decreases rank(q.name), 2
  {
    if q.name !in c.components && q.name in factory {
      assert factory[q.name].requests[..0] == [];
      ConstructHands(factory, rank, c, q.name, 0);
    }
  }

  lemma {:induction false} MakeAllHands(factory: Factory, rank: Name -> nat, c: Container, order: seq<Name>)
    requires Acyclic(factory, rank) && Sound(factory, c) && AllHanded(factory, c)
    requires forall n | n !in c.components :: HandedTo(c.handed, n) == []
    requires forall name <- order :: name in factory
    ensures var (d, walk) := MakeAll(factory, rank, c, order); walk.Finished? ==> AllHanded(factory, d)
    decreases |order|
  {
    if order != [] {
      if order[0] in c.components {
        MakeAllHands(factory, rank, c, order[1..]);
      } else {
        assert factory[order[0]].requests[..0] == [];
        ConstructHands(factory, rank, c, order[0], 0);
        ConstructSound(factory, rank, c, order[0], 0);
        hide Construct, HandedTo;
        var (c1, made) := Construct(factory, rank, c, order[0], 0);
        if made.Made? {
          MakeAllHands(factory, rank, c1.Add(order[0], made.instance), order[1..]);
        }
      }
    }
  }

  ghost predicate Lists(order: seq<Name>, factory: Factory) {
    forall name :: name in order <==> name in factory
  }

  /** For every acyclic factory and every iteration order, `MakeComponents` succeeds if and only
      if each registered constructor requests only registered components of a matching type. */
  lemma MakeComponentsSucceedsIff(factory: Factory, rank: Name -> nat, order: seq<Name>)
    requires Acyclic(factory, rank) && Lists(order, factory)
    ensures MakeAll(factory, rank, Container(map[], [], []), order).1.Finished? <==> WellFormed(factory)
  {
    var empty := Container(map[], [], []);
    MakeAllSound(factory, rank, empty, order);
    if WellFormed(factory) {
      MakeAllTidy(factory, rank, empty, order);
    }
  }

  /** And then, in whatever order the factory is walked: exactly the registered components exist,
      each constructed exactly once and after all it requested, and every constructor was handed,
      for every request, in order and once each, the one instance the container keeps. */
  lemma MakeComponentsBuildsEachOnce(factory: Factory, rank: Name -> nat, order: seq<Name>)
    requires Acyclic(factory, rank) && Lists(order, factory) && WellFormed(factory)
    ensures var d := MakeAll(factory, rank, Container(map[], [], []), order).0;
      && d.components.Keys == factory.Keys && multiset(d.built) == multiset(factory.Keys)
      && RequestsFirst(factory, d.built)
      && (forall name <- factory :: forall r <- factory[name].requests ::
            r.name in d.components && Handed(name, r, d.components[r.name]) in d.handed)
      && (forall h <- d.handed :: h.request.name in d.components && d.components[h.request.name] == h.instance)
      && (forall name <- factory :: HandedTo(d.handed, name) == factory[name].requests)
      && (forall m, n | m in d.components && n in d.components && m != n ::
            d.components[m].serial != d.components[n].serial)
  {
    var empty := Container(map[], [], []);
    MakeAllTidy(factory, rank, empty, order);
    MakeAllSound(factory, rank, empty, order);
    MakeAllHands(factory, rank, empty, order);
    hide HandedTo;
    var d := MakeAll(factory, rank, empty, order).0;
    assert d.components.Keys == factory.Keys;
    OnceEach(d.built, factory.Keys);
    forall name <- factory, r <- factory[name].requests
      ensures r.name in d.components && Handed(name, r, d.components[r.name]) in d.handed
    {
      assert Answered(factory, d, name, |factory[name].requests|);
    }
  }

  lemma {:induction false} OnceEach(built: seq<Name>, names: set<Name>)
    requires forall i, j | 0 <= i < j < |built| :: built[i] != built[j]
    requires forall name :: name in built <==> name in names
    ensures multiset(built) == multiset(names)
  {
    if built == [] {
      assert names == {};
    } else {
      var rest := built[1..];
      forall name ensures name in rest <==> name in names - {built[0]} {
        assert name in built <==> name == built[0] || name in rest;
      }
      OnceEach(rest, names - {built[0]});
      assert built == [built[0]] + rest;
      assert names == names - {built[0]} + {built[0]};
    }
  }
}
