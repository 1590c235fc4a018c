/** Dependency injection of sovereign/router.py: recursive resolution through a per-router and a per-request
    cache. Provider functions are numbered; what they compute is the parameter `body` of the setup. */
module Injection {
  import opened Errors

  datatype Scope = Transient | PerRequest | Singleton

  /** A parameter of a provider or handler: the request itself, an `Inject` marker, or one left to its default. */
  datatype Param = TheRequest | Inject(provider: nat, scope: Option<Scope>) | Plain

  datatype Provider = Provider(params: seq<Param>, scope: Option<Scope>)

  datatype Arg<V> = Req(id: nat) | Value(v: V)

  datatype Setup<!V> = Setup(graph: seq<Provider>, overrides: map<nat, nat>, body: (nat, seq<Arg<V>>) -> V)
  {
    /** The provider that is called for `q`: its override, if there is one. */
    function Effective(q: nat): nat {
      if q in overrides then overrides[q] else q
    }

    /** The marker's scope, else the called provider's, else the original's, else transient. */
    function ScopeOf(q: nat, marker: Option<Scope>): Scope
      requires q < |graph| && Effective(q) < |graph|
    {
      if marker.Some? then marker.value
      else if graph[Effective(q)].scope.Some? then graph[Effective(q)].scope.value
      else if graph[q].scope.Some? then graph[q].scope.value
      else Transient
    }

    /** The parameters name existing providers that come before `bound` in a topological numbering. */
    predicate Resolvable(params: seq<Param>, bound: nat) {
      forall i :: 0 <= i < |params| && params[i].Inject? ==>
        params[i].provider < |graph| && Effective(params[i].provider) < bound
    }

    /** No provider depends on itself, overrides included. */
    predicate Acyclic() {
      forall p :: 0 <= p < |graph| ==> Resolvable(graph[p].params, p)
    }

    // ---- evaluation without any cache ------------------------------------------------------

    function Eval(p: nat, req: nat): V
      requires Acyclic() && p < |graph|
      decreases p, 1, 0
    {
      body(p, Args(graph[p].params, req, p))
    }

    /** The arguments a call receives, in order; parameters left to their default receive none. */
    function Args(params: seq<Param>, req: nat, bound: nat): seq<Arg<V>>
      requires Acyclic() && bound <= |graph| && Resolvable(params, bound)
      decreases bound, 0, |params|
    {
      if params == [] then []
      else
        var init := params[..|params| - 1];
        var last := params[|params| - 1];
        Args(init, req, bound) +
        match last
        case TheRequest => [Req(req)]
        case Inject(q, _) => [Value(Eval(Effective(q), req))]
        case Plain => []
    }

    /** Neither the provider nor anything it depends on takes the request. */
    predicate RequestFree(p: nat)
      requires Acyclic() && p < |graph|
      decreases p, 1, 0
    {
      ParamsRequestFree(graph[p].params, p)
    }

    predicate ParamsRequestFree(params: seq<Param>, bound: nat)
      requires Acyclic() && bound <= |graph| && Resolvable(params, bound)
      decreases bound, 0, |params|
    {
      params == [] ||
      (var last := params[|params| - 1];
       && ParamsRequestFree(params[..|params| - 1], bound)
       && !last.TheRequest?
       && (last.Inject? ==> RequestFree(Effective(last.provider))))
    }

    // ---- one scope per provider --------------------------------------------------------------

    /** Every marker resolves its provider with the scope `scopes` gives it. */
    predicate Scoped(params: seq<Param>, bound: nat, scopes: seq<Scope>)
      requires Resolvable(params, bound) && bound <= |graph| == |scopes|
    {
      forall i :: 0 <= i < |params| && params[i].Inject? ==>
        ScopeOf(params[i].provider, params[i].scope) == scopes[Effective(params[i].provider)]
    }

    /** Each provider is always resolved with one scope. */
    predicate WellScoped(scopes: seq<Scope>)
      requires Acyclic()
    {
      |scopes| == |graph| && forall p :: 0 <= p < |graph| ==> Scoped(graph[p].params, p, scopes)
    }

    /** Singletons do not depend on the request. */
    predicate SingletonsFree(scopes: seq<Scope>)
      requires Acyclic() && |scopes| == |graph|
    {
      forall p :: 0 <= p < |graph| && scopes[p] == Singleton ==> RequestFree(p)
    }
  }

  // ---- what is injected --------------------------------------------------------------------

  /** How many arguments these parameters receive. */
  function Given(params: seq<Param>): nat {
    if params == [] then 0 else Given(params[..|params| - 1]) + (if params[|params| - 1].Plain? then 0 else 1)
  }

  /** What a parameter is to receive: the request, or the value of the provider that stands in for the one named. */
  function Injected<V>(s: Setup<V>, param: Param, req: nat): Arg<V>
    requires s.Acyclic() && !param.Plain?
    requires param.Inject? ==> s.Effective(param.provider) < |s.graph|
  {
    if param.TheRequest? then Req(req)
    else Value(s.Eval(if param.provider in s.overrides then s.overrides[param.provider] else param.provider, req))
  }

  /** Every parameter that is not left to its default receives, in its turn, the request or the value of the provider
      it names - of the one that stands in for it, where it is overridden. */
  lemma {:induction false} ArgsExactly<V>(s: Setup<V>, params: seq<Param>, req: nat, bound: nat)
    requires s.Acyclic() && bound <= |s.graph| && s.Resolvable(params, bound)
    ensures var args := s.Args(params, req, bound);
            && |args| == Given(params)
            && forall k :: 0 <= k < |params| && !params[k].Plain? ==>
                 && Given(params[..k]) < |args|
                 && args[Given(params[..k])] == Injected(s, params[k], req)
  {
    if params == [] {
    } else {
      var init := params[..|params| - 1];
      var more := s.Args(init, req, bound);
      ArgsExactly(s, init, req, bound);
      forall k | 0 <= k < |params| && !params[k].Plain?
        ensures Given(params[..k]) < |s.Args(params, req, bound)|
        ensures s.Args(params, req, bound)[Given(params[..k])] == Injected(s, params[k], req)
      {
        if k < |init| {
          assert params[k] == init[k] && params[..k] == init[..k];
          assert s.Args(params, req, bound)[Given(init[..k])] == more[Given(init[..k])];
        } else {
          assert params[..k] == init;
        }
      }
    }
  }

  /** The scope a marker is resolved with is the first one given: by the marker, by the provider that is called, by
      the one it stands in for; it is transient if none is. */
  lemma ScopeExactly<V>(s: Setup<V>, q: nat, marker: Option<Scope>, scope: Scope)
    requires q < |s.graph| && s.Effective(q) < |s.graph|
    ensures var called := if q in s.overrides then s.overrides[q] else q;
            var candidates := [marker, s.graph[called].scope, s.graph[q].scope, Some(Transient)];
            s.ScopeOf(q, marker) == scope <==>
            exists i :: 0 <= i < 4 && candidates[i] == Some(scope) && forall j :: 0 <= j < i ==> candidates[j] == None
  {
    var called := if q in s.overrides then s.overrides[q] else q;
    var candidates := [marker, s.graph[called].scope, s.graph[q].scope, Some(Transient)];
    assert candidates[0] == marker && candidates[1] == s.graph[called].scope && candidates[2] == s.graph[q].scope;
    assert candidates[3] == Some(Transient);
    if s.ScopeOf(q, marker) == scope {
      var i := if marker.Some? then 0
               else if s.graph[called].scope.Some? then 1 else if s.graph[q].scope.Some? then 2 else 3;
      assert candidates[i] == Some(scope) && forall j :: 0 <= j < i ==> candidates[j] == None;
    }
  }

  /** A request-free provider computes the same for every request. */
  lemma {:induction false} RequestFreeSame<V>(s: Setup<V>, p: nat, r1: nat, r2: nat)
    requires s.Acyclic() && p < |s.graph| && s.RequestFree(p)
    ensures s.Eval(p, r1) == s.Eval(p, r2)
    decreases p, 1, 0
  {
    ArgsSame(s, s.graph[p].params, p, r1, r2);
  }

  lemma {:induction false} ArgsSame<V>(s: Setup<V>, params: seq<Param>, bound: nat, r1: nat, r2: nat)
    requires s.Acyclic() && bound <= |s.graph| && s.Resolvable(params, bound) && s.ParamsRequestFree(params, bound)
    ensures s.Args(params, r1, bound) == s.Args(params, r2, bound)
    decreases bound, 0, |params|
  {
    if params == [] {
    } else {
      var last := params[|params| - 1];
      ArgsSame(s, params[..|params| - 1], bound, r1, r2);
      if last.Inject? {
        RequestFreeSame(s, s.Effective(last.provider), r1, r2);
      }
    }
  }

  // ---- which providers are worth the same to every request ---------------------------------

  function Total(args: seq<Arg<nat>>): nat {
    if args == [] then 0
    else
      Total(args[..|args| - 1]) + match args[|args| - 1] case Req(id) => id case Value(v) => v
  }

  /** Bodies that add up the requests and values they are given. */
  function Adding(p: nat, args: seq<Arg<nat>>): nat {
    Total(args)
  }

  function AddingSetup(graph: seq<Provider>, overrides: map<nat, nat>): Setup<nat> {
    Setup(graph, overrides, Adding)
  }

  lemma TotalSnoc(args: seq<Arg<nat>>, a: Arg<nat>)
    ensures Total(args + [a]) == Total(args) + match a case Req(id) => id case Value(v) => v
  {
    assert (args + [a])[..|args|] == args;
  }

  /** They give a later request more exactly where the request is used. */
  lemma {:induction false} AddingGrows(s: Setup<nat>, p: nat, r1: nat, r2: nat)
    requires s.body == Adding && s.Acyclic() && p < |s.graph| && r1 < r2
    ensures s.Eval(p, r1) <= s.Eval(p, r2) && (!s.RequestFree(p) ==> s.Eval(p, r1) < s.Eval(p, r2))
    decreases p, 1, 0
  {
    ArgsGrow(s, s.graph[p].params, p, r1, r2);
  }

  lemma {:induction false} ArgsGrow(s: Setup<nat>, params: seq<Param>, bound: nat, r1: nat, r2: nat)
    requires s.body == Adding && s.Acyclic() && bound <= |s.graph| && s.Resolvable(params, bound) && r1 < r2
    ensures var a1, a2 := Total(s.Args(params, r1, bound)), Total(s.Args(params, r2, bound));
            a1 <= a2 && (!s.ParamsRequestFree(params, bound) ==> a1 < a2)
    decreases bound, 0, |params|
  {
    hide Total;
    if params == [] {
    } else {
      var init, last := params[..|params| - 1], params[|params| - 1];
      ArgsGrow(s, init, bound, r1, r2);
      var x1, x2 := s.Args(init, r1, bound), s.Args(init, r2, bound);
      match last
      case TheRequest =>
        TotalSnoc(x1, Req(r1));
        TotalSnoc(x2, Req(r2));
      case Inject(q, _) =>
        var e := s.Effective(q);
        AddingGrows(s, e, r1, r2);
        TotalSnoc(x1, Value(s.Eval(e, r1)));
        TotalSnoc(x2, Value(s.Eval(e, r2)));
      case Plain =>
        assert x1 + [] == x1 && x2 + [] == x2;
    }
  }

  /** Being request-free is a matter of graph and overrides, not of what the bodies compute. */
  lemma {:induction false} FreeWhateverBodies(s: Setup<nat>, s': Setup<nat>, p: nat)
    requires s.graph == s'.graph && s.overrides == s'.overrides
    requires s.Acyclic() && s'.Acyclic() && p < |s.graph|
    ensures s.RequestFree(p) <==> s'.RequestFree(p)
    decreases p, 1, 0
  {
    ParamsFreeWhateverBodies(s, s', s.graph[p].params, p);
  }

  lemma {:induction false} ParamsFreeWhateverBodies(s: Setup<nat>, s': Setup<nat>, params: seq<Param>, bound: nat)
    requires s.graph == s'.graph && s.overrides == s'.overrides
    requires s.Acyclic() && s'.Acyclic() && bound <= |s.graph|
    requires s.Resolvable(params, bound) && s'.Resolvable(params, bound)
    ensures s.ParamsRequestFree(params, bound) <==> s'.ParamsRequestFree(params, bound)
    decreases bound, 0, |params|
  {
    if params == [] {
    } else {
      var last := params[|params| - 1];
      ParamsFreeWhateverBodies(s, s', params[..|params| - 1], bound);
      if last.Inject? {
        FreeWhateverBodies(s, s', s.Effective(last.provider));
      }
    }
  }

  /** For a given graph and overrides, a provider is worth the same to any two requests, whatever the bodies
      compute, if and only if neither it nor anything it depends on takes the request. */
  lemma RequestFreeExactly(graph: seq<Provider>, overrides: map<nat, nat>, p: nat)
    requires AddingSetup(graph, overrides).Acyclic() && p < |graph|
    ensures AddingSetup(graph, overrides).RequestFree(p) <==>
            forall body: (nat, seq<Arg<nat>>) -> nat, r1: nat, r2: nat ::
              WorthTheSame(Setup(graph, overrides, body), p, r1, r2)
  {
    var adding := AddingSetup(graph, overrides);
    if adding.RequestFree(p) {
      forall body: (nat, seq<Arg<nat>>) -> nat, r1: nat, r2: nat
        ensures WorthTheSame(Setup(graph, overrides, body), p, r1, r2)
      {
        var s := Setup(graph, overrides, body);
        if s.Acyclic() {
          FreeWhateverBodies(adding, s, p);
          RequestFreeSame(s, p, r1, r2);
        }
      }
    } else {
      AddingGrows(adding, p, 0, 1);
      assert !WorthTheSame(Setup(graph, overrides, Adding), p, 0, 1);
    }
  }

  ghost predicate WorthTheSame(s: Setup<nat>, p: nat, r1: nat, r2: nat)
    requires p < |s.graph|
  {
    s.Acyclic() ==> s.Eval(p, r1) == s.Eval(p, r2)
  }

  function Count(log: seq<nat>, p: nat): nat {
    if log == [] then 0 else Count(log[..|log| - 1], p) + (if log[|log| - 1] == p then 1 else 0)
  }

  lemma CountSnoc(log: seq<nat>, q: nat, p: nat)
    ensures Count(log + [q], p) == Count(log, p) + (if q == p then 1 else 0)
  {
    assert (log + [q])[..|log|] == log;
  }

  /** A cache holds plain results, for exactly the providers of its scope that have been called, once each;
      the call of `open` may not be stored yet. */
  ghost predicate Exact<V>(s: Setup<V>, scopes: seq<Scope>, scope: Scope, req: nat, cache: map<nat, V>, log: seq<nat>)
    requires s.Acyclic() && s.WellScoped(scopes)
  {
    && (forall p :: p in cache ==> p < |s.graph| && scopes[p] == scope && cache[p] == s.Eval(p, req))
    && (forall p :: 0 <= p < |s.graph| && scopes[p] == scope ==> Count(log, p) == if p in cache then 1 else 0)
  }

  lemma NothingCalled<V(!new)>(s: Setup<V>, scopes: seq<Scope>, scope: Scope, req: nat)
    requires s.Acyclic() && s.WellScoped(scopes)
    ensures Exact(s, scopes, scope, req, map[], [])
  {
  }

  lemma AtMostOnce<V(!new)>(s: Setup<V>, scopes: seq<Scope>, scope: Scope, req: nat, cache: map<nat, V>, log: seq<nat>)
    requires s.Acyclic() && s.WellScoped(scopes) && Exact(s, scopes, scope, req, cache, log)
    ensures forall p :: 0 <= p < |s.graph| && scopes[p] == scope ==> Count(log, p) <= 1
  {
  }

  /** Nothing at or above `bound` was called or stored. */
  ghost predicate Below<V(!new)>(bound: nat, cache: map<nat, V>, log: seq<nat>, cache': map<nat, V>, log': seq<nat>) {
    forall p :: p >= bound ==> (p in cache <==> p in cache') && Count(log, p) == Count(log', p)
  }

  lemma Unchanged<V(!new)>(bound: nat, cache: map<nat, V>, log: seq<nat>)
    ensures Below(bound, cache, log, cache, log)
  {
  }

  lemma Hit<V(!new)>(s: Setup<V>, scopes: seq<Scope>, scope: Scope, req: nat, cache: map<nat, V>, log: seq<nat>, p: nat)
    requires s.Acyclic() && s.WellScoped(scopes) && Exact(s, scopes, scope, req, cache, log) && p in cache
    ensures p < |s.graph| && cache[p] == s.Eval(p, req)
  {
  }

  /** The cache once the value of `p` has been stored, if this is the cache of its scope. */
  function Stored<V>(scopes: seq<Scope>, scope: Scope, cache: map<nat, V>, p: nat, v: V): map<nat, V>
    requires p < |scopes|
  {
    if scopes[p] == scope then cache[p := v] else cache
  }

  lemma AfterCall<V(!new)>(s: Setup<V>, scopes: seq<Scope>, scope: Scope, req: nat, cache0: map<nat, V>, log0: seq<nat>,
                           cache: map<nat, V>, before: seq<nat>, p: nat, v: V)
    requires s.Acyclic() && s.WellScoped(scopes) && p < |s.graph| && v == s.Eval(p, req)
    requires Exact(s, scopes, scope, req, cache, before) && Below(p, cache0, log0, cache, before)
    requires scopes[p] == scope ==> p !in cache0
    ensures Exact(s, scopes, scope, req, Stored(scopes, scope, cache, p, v), before + [p])
    ensures Below(p + 1, cache0, log0, Stored(scopes, scope, cache, p, v), before + [p])
  {
    forall k
      ensures Count(before + [p], k) == Count(before, k) + (if p == k then 1 else 0)
    {
      CountSnoc(before, p, k);
    }
  }

  class Request<V> {
    const id: nat
    var diCache: map<nat, V>
    ghost var log: seq<nat>          // the providers called for this request

    constructor (id: nat)
      ensures this.id == id && diCache == map[] && log == []
    {
      this.id, diCache, log := id, map[], [];
    }
  }

  class Router<V(!new)> {
    const setup: Setup<V>
    ghost const scopes: seq<Scope>
    var singletonCache: map<nat, V>
    ghost var log: seq<nat>          // the providers called since the router exists

    ghost predicate Static() {
      setup.Acyclic() && setup.WellScoped(scopes)
    }

    ghost predicate Valid(req: Request<V>)
      reads this, req
    {
      && Static()
      && Exact(setup, scopes, Singleton, req.id, singletonCache, log)
      && Exact(setup, scopes, PerRequest, req.id, req.diCache, req.log)
    }

    constructor (setup: Setup<V>, ghost scopes: seq<Scope>)
      requires setup.Acyclic() && setup.WellScoped(scopes)
      ensures this.setup == setup && this.scopes == scopes && Static()
      ensures singletonCache == map[] && log == []
    {
      this.setup, this.scopes := setup, scopes;
      singletonCache, log := map[], [];
    }

    /** The loop over a signature: the arguments equal those of uncached evaluation, and only providers below
        `bound` are touched. */
    method Collect(params: seq<Param>, req: Request<V>, bound: nat) returns (kwargs: seq<Arg<V>>)
      requires Valid(req) && bound <= |setup.graph|
      requires setup.Resolvable(params, bound) && setup.Scoped(params, bound, scopes)
      modifies this, req
      ensures Valid(req) && kwargs == setup.Args(params, req.id, bound)
      ensures Below(bound, old(singletonCache), old(log), singletonCache, log)
      ensures Below(bound, old(req.diCache), old(req.log), req.diCache, req.log)
      decreases bound, 0
    {
      kwargs := [];
      for i := 0 to |params|
        invariant Valid(req)
        invariant kwargs == setup.Args(params[..i], req.id, bound)
        invariant Below(bound, old(singletonCache), old(log), singletonCache, log)
        invariant Below(bound, old(req.diCache), old(req.log), req.diCache, req.log)
      {
        assert params[..i + 1][..i] == params[..i];
        match params[i]
        case TheRequest => kwargs := kwargs + [Req(req.id)];
        case Inject(q, marker) =>
          var v := ResolveDependency(q, marker, req);
          kwargs := kwargs + [Value(v)];
        case Plain =>
      }
      assert params[..|params|] == params;
    }

    /** Calls a provider that is in no cache of its scope: once its value is stored there, both caches are
        exact again. */
    method InvokeProvider(p: nat, req: Request<V>) returns (v: V)
      requires Valid(req) && p < |setup.graph|
      requires scopes[p] == Singleton ==> p !in singletonCache
      requires scopes[p] == PerRequest ==> p !in req.diCache
      modifies this, req
      ensures Static() && v == setup.Eval(p, req.id)
      ensures var cache := Stored(scopes, Singleton, singletonCache, p, v);
              && Exact(setup, scopes, Singleton, req.id, cache, log)
              && Below(p + 1, old(singletonCache), old(log), cache, log)
      ensures var cache := Stored(scopes, PerRequest, req.diCache, p, v);
              && Exact(setup, scopes, PerRequest, req.id, cache, req.log)
              && Below(p + 1, old(req.diCache), old(req.log), cache, req.log)
      decreases p, 1
    {
      hide Exact, Below, Stored;
      var kwargs := Collect(setup.graph[p].params, req, p);
      v := setup.body(p, kwargs);
      AfterCall(setup, scopes, Singleton, req.id, old(singletonCache), old(log), singletonCache, log, p, v);
      AfterCall(setup, scopes, PerRequest, req.id, old(req.diCache), old(req.log), req.diCache, req.log, p, v);
      log := log + [p];
      req.log := req.log + [p];
    }

    /** The provider's value has been stored for all requests to come. */
    ghost predicate Cached(p: nat)
      requires p < |scopes|
      reads this
    {
      scopes[p] == Singleton && p in singletonCache
    }

    /** Resolves one marker: the value is that of uncached evaluation, and each singleton (each per-request
        provider) has been called at most once by this router (for this request). A cached singleton is handed
        out as it is, whatever the request. */
    method ResolveDependency(q: nat, marker: Option<Scope>, req: Request<V>) returns (v: V)
      requires Static() && q < |setup.graph| && setup.Effective(q) < |setup.graph|
      requires setup.ScopeOf(q, marker) == scopes[setup.Effective(q)]
      requires Valid(req) || Cached(setup.Effective(q))
      modifies this, req
      ensures old(Valid(req)) ==> Valid(req) && v == setup.Eval(setup.Effective(q), req.id)
      ensures scopes[setup.Effective(q)] == Singleton ==>
                Cached(setup.Effective(q)) && v == singletonCache[setup.Effective(q)]
      ensures old(Cached(setup.Effective(q))) ==>
                v == old(singletonCache)[setup.Effective(q)] && singletonCache == old(singletonCache) && log == old(log)
      ensures Below(setup.Effective(q) + 1, old(singletonCache), old(log), singletonCache, log)
      ensures Below(setup.Effective(q) + 1, old(req.diCache), old(req.log), req.diCache, req.log)
      decreases setup.Effective(q), 2
    {
      hide Exact, Below;
      var p := setup.Effective(q);
      var scope := setup.ScopeOf(q, marker);
      Unchanged(p + 1, singletonCache, log);
      Unchanged(p + 1, req.diCache, req.log);
      if scope == Singleton {
        if p !in singletonCache {
          var made := InvokeProvider(p, req);
          singletonCache := singletonCache[p := made];
        }
        if Valid(req) { Hit(setup, scopes, Singleton, req.id, singletonCache, log, p); }
        v := singletonCache[p];
      } else if scope == PerRequest {
        if p !in req.diCache {
          var made := InvokeProvider(p, req);
          req.diCache := req.diCache[p := made];
        }
        Hit(setup, scopes, PerRequest, req.id, req.diCache, req.log, p);
        v := req.diCache[p];
      } else {
        v := InvokeProvider(p, req);
      }
    }

    /** Two requests after one another ask a new router for the same singleton: the second is given the value made
        for the first. It is its own as well if the provider is request-free; `RequestFreeExactly` says that
        nothing less will do. */
    method TwoRequests(q: nat, marker: Option<Scope>, r1: nat, r2: nat) returns (first: V, second: V)
      requires Static() && q < |setup.graph| && setup.Effective(q) < |setup.graph|
      requires setup.ScopeOf(q, marker) == scopes[setup.Effective(q)] == Singleton
      requires singletonCache == map[] && log == []
      modifies this
      ensures first == second == setup.Eval(setup.Effective(q), r1)
      ensures setup.RequestFree(setup.Effective(q)) ==> second == setup.Eval(setup.Effective(q), r2)
    {
      hide Below, Count, Exact;
      var p := setup.Effective(q);
      NothingCalled(setup, scopes, Singleton, r1);
      NothingCalled(setup, scopes, PerRequest, r1);
      var req1 := new Request<V>(r1);
      first := ResolveDependency(q, marker, req1);
      var req2 := new Request<V>(r2);
      second := ResolveDependency(q, marker, req2);
      if setup.RequestFree(p) { RequestFreeSame(setup, p, r1, r2); }
    }

    /** `_call_handler`: the handler gets the request anyway, its other markers are resolved. */
    method CallHandler(params: seq<Param>, req: Request<V>) returns (kwargs: seq<Arg<V>>)
      requires Valid(req)
      requires setup.Resolvable(params, |setup.graph|) && setup.Scoped(params, |setup.graph|, scopes)
      modifies this, req
      ensures Valid(req) && kwargs == setup.Args(WithoutRequest(params), req.id, |setup.graph|)
    {
      kwargs := Collect(WithoutRequest(params), req, |setup.graph|);
    }

    /** A whole life of the router, one request after the other: every handler receives what uncached
        evaluation would give it, no singleton is ever called twice, and no per-request provider is called
        twice for one request. */
    method Serve(handlers: seq<seq<Param>>) returns (received: seq<seq<Arg<V>>>, ghost logs: seq<seq<nat>>)
      requires Static() && setup.SingletonsFree(scopes) && singletonCache == map[] && log == []
      requires forall i :: 0 <= i < |handlers| ==>
                 setup.Resolvable(handlers[i], |setup.graph|) && setup.Scoped(handlers[i], |setup.graph|, scopes)
      modifies this
      ensures |received| == |handlers| == |logs|
      ensures forall i :: 0 <= i < |handlers| ==>
                setup.Resolvable(WithoutRequest(handlers[i]), |setup.graph|) &&
                received[i] == setup.Args(WithoutRequest(handlers[i]), i, |setup.graph|)
      ensures forall p :: 0 <= p < |setup.graph| && scopes[p] == Singleton ==> Count(log, p) <= 1
      ensures forall i, p :: 0 <= i < |logs| && 0 <= p < |setup.graph| && scopes[p] == PerRequest ==>
                Count(logs[i], p) <= 1
    {
      hide Exact, Below, Count;
      received, logs := [], [];
      NothingCalled(setup, scopes, Singleton, 0);
      for i := 0 to |handlers|
        invariant |received| == i == |logs|
        invariant Exact(setup, scopes, Singleton, i, singletonCache, log)
        invariant forall k :: 0 <= k < i ==>
                    setup.Resolvable(WithoutRequest(handlers[k]), |setup.graph|) &&
                    received[k] == setup.Args(WithoutRequest(handlers[k]), k, |setup.graph|)
        invariant forall k, p :: 0 <= k < i && 0 <= p < |setup.graph| && scopes[p] == PerRequest ==>
                    Count(logs[k], p) <= 1
      {
        var req := new Request<V>(i);
        NothingCalled(setup, scopes, PerRequest, i);
        var kwargs := CallHandler(handlers[i], req);
        AtMostOnce(setup, scopes, PerRequest, i, req.diCache, req.log);
        received, logs := received + [kwargs], logs + [req.log];
        SingletonsServeAll(setup, scopes, i, i + 1, singletonCache, log);
      }
      AtMostOnce(setup, scopes, Singleton, |handlers|, singletonCache, log);
    }
  }

  function WithoutRequest(params: seq<Param>): (r: seq<Param>)
    ensures |r| == |params| && forall i :: 0 <= i < |r| ==> r[i] == if params[i].TheRequest? then Plain else params[i]
  {
    seq(|params|, i requires 0 <= i < |params| => if params[i].TheRequest? then Plain else params[i])
  }

  /** Cached singletons are right for every later request, because they do not depend on it. */
  lemma SingletonsServeAll<V>(s: Setup<V>, scopes: seq<Scope>, r1: nat, r2: nat, cache: map<nat, V>, log: seq<nat>)
    requires s.Acyclic() && s.WellScoped(scopes) && s.SingletonsFree(scopes)
    requires Exact(s, scopes, Singleton, r1, cache, log)
    ensures Exact(s, scopes, Singleton, r2, cache, log)
  {
    forall p | p in cache
      ensures cache[p] == s.Eval(p, r2)
    {
      RequestFreeSame(s, p, r1, r2);
    }
  }

  /** The condition on singletons is needed: one that takes the request can be worth different things to two
      requests, and `TwoRequests` hands the second what was made for the first. */
  lemma SingletonMustNotTakeRequest()
    ensures var s := Setup([Provider([TheRequest], Some(Singleton))], map[],
                           (p: nat, args: seq<Arg<nat>>) => if args == [Req(1)] then 1 else 0);
            s.Acyclic() && !s.RequestFree(0) && s.Eval(0, 1) != s.Eval(0, 2)
  {
    var s := Setup([Provider([TheRequest], Some(Singleton))], map[],
                   (p: nat, args: seq<Arg<nat>>) => if args == [Req(1)] then 1 else 0);
    assert s.Acyclic();
    assert [TheRequest][..0] == [];
    assert s.Args([TheRequest], 1, 0) == s.Args([], 1, 0) + [Req(1)] == [Req(1)];
    assert s.Args([TheRequest], 2, 0) == s.Args([], 2, 0) + [Req(2)] == [Req(2)];
  }
}
