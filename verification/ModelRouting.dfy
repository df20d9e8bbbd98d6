/** Providers, models and the default model of each capability. */
module ModelRouting {
  import opened OrderedDict

  datatype Provider = Provider(name: string, protocol: string, enabled: bool)

  datatype Model = Model(providerId: string, name: string, modelType: string, enabled: bool)

  datatype Route = Route(capability: string, modelId: string)

  datatype Registry = Registry(providers: map<string, Provider>, models: map<string, Model>, routes: seq<Route>)

  const CAPABILITIES := {"llm", "embedding", "asr", "ocr"}

  datatype Error = ProviderNotFound | ModelNotFound | ProviderHasModels | ModelIsRouted | InvalidRoute

  /** Requests; absent fields of an update leave the stored value. New ids are supplied with the request. */
  datatype Request =
    | CreateProvider(newId: string, provider: Provider)
    | UpdateProvider(id: string, name: Option<string>, protocol: Option<string>, enabled: Option<bool>)
    | DeleteProvider(id: string)
    | CreateModel(newId: string, model: Model)
    | UpdateModel(id: string, name: Option<string>, enabled: Option<bool>)
    | DeleteModel(id: string)
    | SetRoute(capability: string, modelId: string)

  datatype Reply = Done(registry: Registry) | Refused(error: Error)

  function Or<T>(o: Option<T>, default: T): T { if o.Some? then o.value else default }

  /** The place of the capability's route, or the end of the table. */
  function RouteAt(routes: seq<Route>, capability: string): (i: nat)
    ensures i <= |routes| && (i < |routes| ==> routes[i].capability == capability)
    ensures forall k :: 0 <= k < i ==> routes[k].capability != capability
  {
    if routes == [] || routes[0].capability == capability then 0 else 1 + RouteAt(routes[1..], capability)
  }

  function Serve(g: Registry, q: Request): Reply {
    match q
    case CreateProvider(newId, provider) => Done(g.(providers := g.providers[newId := provider]))
    case UpdateProvider(id, name, protocol, enabled) =>
      if id !in g.providers then Refused(ProviderNotFound)
      else
        var p := g.providers[id];
        Done(g.(providers :=
                  g.providers[id := Provider(Or(name, p.name), Or(protocol, p.protocol), Or(enabled, p.enabled))]))
    case DeleteProvider(id) =>
      if id !in g.providers then Refused(ProviderNotFound)
      else if exists m :: m in g.models && g.models[m].providerId == id then Refused(ProviderHasModels)
      else Done(g.(providers := g.providers - {id}))
    case CreateModel(newId, model) =>
      if model.providerId !in g.providers then Refused(ProviderNotFound)
      else Done(g.(models := g.models[newId := model]))
    case UpdateModel(id, name, enabled) =>
      if id !in g.models then Refused(ModelNotFound)
      else
        var m := g.models[id];
        Done(g.(models := g.models[id := m.(name := Or(name, m.name), enabled := Or(enabled, m.enabled))]))
    case DeleteModel(id) =>
      if id !in g.models then Refused(ModelNotFound)
      else if exists i :: 0 <= i < |g.routes| && g.routes[i].modelId == id then Refused(ModelIsRouted)
      else Done(g.(models := g.models - {id}))
    case SetRoute(capability, modelId) =>
      if capability !in CAPABILITIES then Refused(InvalidRoute)
      else if modelId !in g.models then Refused(ModelNotFound)
      else
        var m := g.models[modelId];
        if m.modelType != capability then Refused(InvalidRoute)
        else if m.providerId !in g.providers then Refused(ProviderNotFound)
        else if !m.enabled || !g.providers[m.providerId].enabled then Refused(InvalidRoute)
        else
          var i := RouteAt(g.routes, capability);
          Done(g.(routes := if i == |g.routes| then g.routes + [Route(capability, modelId)]
                            else g.routes[i := g.routes[i].(modelId := modelId)]))
  }

  /** A refused request changes nothing. */
  function Next(g: Registry, q: Request): Registry {
    var r := Serve(g, q);
    if r.Done? then r.registry else g
  }

  /** A new model has a new id: it comes from uuid4. */
  predicate Fresh(g: Registry, q: Request) { q.CreateModel? ==> q.newId !in g.models }

  /** At most one route a capability, to an existing model of that capability; every model has its provider. */
  ghost predicate Consistent(g: Registry) {
    && (forall i, j :: 0 <= i < j < |g.routes| ==> g.routes[i].capability != g.routes[j].capability)
    && (forall i :: 0 <= i < |g.routes| ==>
          g.routes[i].modelId in g.models && g.models[g.routes[i].modelId].modelType == g.routes[i].capability)
    && (forall m :: m in g.models ==> g.models[m].providerId in g.providers)
  }

  lemma RequestKeepsConsistent(g: Registry, q: Request)
    requires Consistent(g) && Fresh(g, q)
    ensures Consistent(Next(g, q))
    ensures forall i :: 0 <= i < |g.routes| ==>
              i < |Next(g, q).routes| && Next(g, q).routes[i].capability == g.routes[i].capability
  {
  }

  function Session(g: Registry, qs: seq<Request>): Registry
    decreases |qs|
  {
    if qs == [] then g else Session(Next(g, qs[0]), qs[1..])
  }

  ghost predicate AllFresh(g: Registry, qs: seq<Request>)
    decreases |qs|
  {
    qs == [] || (Fresh(g, qs[0]) && AllFresh(Next(g, qs[0]), qs[1..]))
  }

  /** Every state reached from a consistent one is consistent, and a capability once routed stays routed. */
  lemma {:induction false} SessionsKeepConsistent(g: Registry, qs: seq<Request>)
    requires Consistent(g) && AllFresh(g, qs)
    ensures Consistent(Session(g, qs))
    ensures forall i :: 0 <= i < |g.routes| ==>
              i < |Session(g, qs).routes| && Session(g, qs).routes[i].capability == g.routes[i].capability
    decreases |qs|
  {
    if qs != [] {
      RequestKeepsConsistent(g, qs[0]);
      SessionsKeepConsistent(Next(g, qs[0]), qs[1..]);
    }
  }

  /** Only the route of its own capability can keep a model from being deleted. */
  lemma DeletableIff(g: Registry, id: string)
    requires Consistent(g)
    ensures Serve(g, DeleteModel(id)).Done?
            <==> id in g.models && Route(g.models[id].modelType, id) !in g.routes
  {
    forall i | 0 <= i < |g.routes| && g.routes[i].modelId == id
      ensures id in g.models && g.routes[i] == Route(g.models[id].modelType, id)
    {
    }
  }

  /** A routed model can be deleted once its capability is routed to another one. */
  lemma RerouteFreesModel(g: Registry, model: string, other: string)
    requires Consistent(g) && model in g.models && model != other
    requires Serve(g, SetRoute(g.models[model].modelType, other)).Done?
    ensures Serve(Next(g, SetRoute(g.models[model].modelType, other)), DeleteModel(model)).Done?
  {
    var g1 := Next(g, SetRoute(g.models[model].modelType, other));
    RequestKeepsConsistent(g, SetRoute(g.models[model].modelType, other));
    DeletableIff(g1, model);
  }

  // ----- resolving -----

  /** A joined row of `resolve`; `typed` says whether the model's type is compared too. */
  predicate Selects(g: Registry, r: Route, capability: string, typed: bool) {
    && r.capability == capability && r.modelId in g.models
    && var m := g.models[r.modelId];
       && (typed ==> m.modelType == capability) && m.enabled
       && m.providerId in g.providers && g.providers[m.providerId].enabled
  }

  /** The model that `resolve` finds: the first joined row. */
  function Resolve(g: Registry, routes: seq<Route>, capability: string, typed: bool): (r: Option<string>)
    ensures r.Some? ==> exists i ::
              0 <= i < |routes| && Selects(g, routes[i], capability, typed) && routes[i].modelId == r.value
    ensures r.None? ==> forall i :: 0 <= i < |routes| ==> !Selects(g, routes[i], capability, typed)
  {
    if routes == [] then None
    else if Selects(g, routes[0], capability, typed) then Some(routes[0].modelId)
    else Resolve(g, routes[1..], capability, typed)
  }

  /** In every reachable state, a capability resolves exactly when it has a route whose model and provider are
      enabled; it then resolves to that model; and comparing the model's type makes no difference. */
  lemma ResolveFindsTheRoute(qs: seq<Request>, capability: string)
    requires AllFresh(Registry(map[], map[], []), qs)
    ensures var g := Session(Registry(map[], map[], []), qs);
            var i := RouteAt(g.routes, capability);
            var found := Resolve(g, g.routes, capability, true);
            && found == Resolve(g, g.routes, capability, false)
            && (found.Some?
                <==> i < |g.routes| && g.routes[i].modelId in g.models && g.models[g.routes[i].modelId].enabled
                                 && g.models[g.routes[i].modelId].providerId in g.providers
                                 && g.providers[g.models[g.routes[i].modelId].providerId].enabled)
            && (found.Some? ==> found.value == g.routes[i].modelId)
  {
    var g := Session(Registry(map[], map[], []), qs);
    SessionsKeepConsistent(Registry(map[], map[], []), qs);
    var i := RouteAt(g.routes, capability);
    if i < |g.routes| {
      assert Selects(g, g.routes[i], capability, true) <==> Selects(g, g.routes[i], capability, false);
    }
  }

  // ----- what a request comes to, in plain terms -----

  /** The field has the given value, or the old one if none is given. */
  ghost predicate Updated<T>(given: Option<T>, before: T, after: T) {
    match given
    case None => after == before
    case Some(value) => after == value
  }

  ghost predicate ProviderUpdated(g: Registry, g1: Registry, id: string, name: Option<string>, protocol: Option<string>,
                                  enabled: Option<bool>) {
    && g1.providers.Keys == g.providers.Keys && id in g.providers && g1.models == g.models && g1.routes == g.routes
    && (forall k :: k in g.providers && k != id ==> g1.providers[k] == g.providers[k])
    && Updated(name, g.providers[id].name, g1.providers[id].name)
    && Updated(protocol, g.providers[id].protocol, g1.providers[id].protocol)
    && Updated(enabled, g.providers[id].enabled, g1.providers[id].enabled)
  }

  ghost predicate ModelUpdated(g: Registry, g1: Registry, id: string, name: Option<string>, enabled: Option<bool>) {
    && g1.models.Keys == g.models.Keys && id in g.models && g1.providers == g.providers && g1.routes == g.routes
    && (forall k :: k in g.models && k != id ==> g1.models[k] == g.models[k])
    && g1.models[id].providerId == g.models[id].providerId && g1.models[id].modelType == g.models[id].modelType
    && Updated(name, g.models[id].name, g1.models[id].name)
    && Updated(enabled, g.models[id].enabled, g1.models[id].enabled)
  }

  /** The capability is served by this model and no other; the routes of other capabilities are as before. */
  ghost predicate Routed(g: Registry, g1: Registry, capability: string, modelId: string) {
    && g1.providers == g.providers && g1.models == g.models
    && (exists r :: r in g1.routes && r.capability == capability)
    && (forall r :: r in g1.routes && r.capability == capability ==> r.modelId == modelId)
    && (forall r: Route :: r.capability != capability ==> (r in g1.routes <==> r in g.routes))
    && Resolve(g1, g1.routes, capability, true) == Some(modelId)
  }

  ghost predicate ProviderHasModel(g: Registry, id: string) {
    exists m :: m in g.models && g.models[m].providerId == id
  }

  ghost predicate HasRoute(g: Registry, model: string) { exists r :: r in g.routes && r.modelId == model }

  ghost predicate IsCapability(capability: string) {
    capability == "llm" || capability == "embedding" || capability == "asr" || capability == "ocr"
  }

  /** Whether a route may be set: the capability and the model's type are one of four, and model and provider are
      enabled. */
  ghost predicate MayRoute(g: Registry, capability: string, modelId: string) {
    && IsCapability(capability) && modelId in g.models
    && g.models[modelId].modelType == capability && g.models[modelId].enabled
    && g.models[modelId].providerId in g.providers && g.providers[g.models[modelId].providerId].enabled
  }

  /** Each request is refused, and then changes nothing, or does what it says and nothing else. */
  ghost predicate PlainlyServed(g: Registry, g1: Registry, q: Request, error: Option<Error>) {
    && (error.Some? ==> g1 == g)
    && match q
       case CreateProvider(newId, provider) =>
         && error.None? && g1.models == g.models && g1.routes == g.routes
         && g1.providers == g.providers[newId := provider]
       case UpdateProvider(id, name, protocol, enabled) =>
         if id !in g.providers then error == Some(ProviderNotFound)
         else error.None? && ProviderUpdated(g, g1, id, name, protocol, enabled)
       case DeleteProvider(id) =>
         if id !in g.providers then error == Some(ProviderNotFound)
         else if ProviderHasModel(g, id) then error == Some(ProviderHasModels)
         else
           && error.None? && g1.models == g.models && g1.routes == g.routes
           && g1.providers == map k | k in g.providers && k != id :: g.providers[k]
       case CreateModel(newId, model) =>
         if model.providerId !in g.providers then error == Some(ProviderNotFound)
         else
           && error.None? && g1.providers == g.providers && g1.routes == g.routes
           && g1.models == g.models[newId := model]
       case UpdateModel(id, name, enabled) =>
         if id !in g.models then error == Some(ModelNotFound) else error.None? && ModelUpdated(g, g1, id, name, enabled)
       case DeleteModel(id) =>
         if id !in g.models then error == Some(ModelNotFound)
         else if HasRoute(g, id) then error == Some(ModelIsRouted)
         else
           && error.None? && g1.providers == g.providers && g1.routes == g.routes
           && g1.models == map k | k in g.models && k != id :: g.models[k]
       case SetRoute(capability, modelId) =>
         if MayRoute(g, capability, modelId) then error.None? && Routed(g, g1, capability, modelId)
         else error == Some(if IsCapability(capability) && modelId !in g.models then ModelNotFound else InvalidRoute)
  }

  lemma RouteIsSet(g: Registry, capability: string, modelId: string)
    requires Consistent(g) && Serve(g, SetRoute(capability, modelId)).Done?
    ensures Routed(g, Next(g, SetRoute(capability, modelId)), capability, modelId)
  {
    var g1 := Next(g, SetRoute(capability, modelId));
    var i := RouteAt(g.routes, capability);
    RequestKeepsConsistent(g, SetRoute(capability, modelId));
    assert g1.routes[i] == Route(capability, modelId) && g1.routes[i] in g1.routes;
    forall r: Route | r.capability != capability ensures r in g1.routes <==> r in g.routes {
      if r in g.routes {
        var k :| 0 <= k < |g.routes| && g.routes[k] == r;
        assert g1.routes[k] == r;
      }
    }
    assert Selects(g1, g1.routes[i], capability, true);
  }

  /** What the service promises, in plain terms. */
  lemma ServedInPlainTerms(g: Registry, q: Request)
    requires Consistent(g)
    ensures PlainlyServed(g, Next(g, q), q, ErrorOf(Serve(g, q)))
  {
    match q
    case DeleteModel(id) =>
      assert HasRoute(g, id) <==> exists i :: 0 <= i < |g.routes| && g.routes[i].modelId == id;
    case SetRoute(capability, modelId) =>
      if Serve(g, q).Done? { RouteIsSet(g, capability, modelId); }
    case _ =>
  }

  class ModelManagementService {
    var providers: map<string, Provider>
    var models: map<string, Model>
    var routes: seq<Route>

    constructor ()
      ensures Contents() == Registry(map[], map[], [])
    {
      providers, models, routes := map[], map[], [];
    }

    ghost function Contents(): Registry
      reads this
    {
      Registry(providers, models, routes)
    }

    method DeleteProvider(id: string) returns (error: Option<Error>)
      modifies this`providers
      ensures Contents() == Next(old(Contents()), Request.DeleteProvider(id))
      ensures error == ErrorOf(Serve(old(Contents()), Request.DeleteProvider(id)))
      ensures Consistent(old(Contents())) ==>
                PlainlyServed(old(Contents()), Contents(), Request.DeleteProvider(id), error)
    {
      if Consistent(Contents()) { ServedInPlainTerms(Contents(), Request.DeleteProvider(id)); }
      if id !in providers {
        return Some(ProviderNotFound);
      }
      if exists m :: m in models && models[m].providerId == id {
        return Some(ProviderHasModels);
      }
      providers := providers - {id};
      return None;
    }

    method DeleteModel(id: string) returns (error: Option<Error>)
      modifies this`models
      ensures Contents() == Next(old(Contents()), Request.DeleteModel(id))
      ensures error == ErrorOf(Serve(old(Contents()), Request.DeleteModel(id)))
      ensures Consistent(old(Contents())) ==>
                PlainlyServed(old(Contents()), Contents(), Request.DeleteModel(id), error)
    {
      if Consistent(Contents()) { ServedInPlainTerms(Contents(), Request.DeleteModel(id)); }
      if id !in models {
        return Some(ModelNotFound);
      }
      if exists i :: 0 <= i < |routes| && routes[i].modelId == id {
        return Some(ModelIsRouted);
      }
      models := models - {id};
      return None;
    }

    method CreateProvider(newId: string, provider: Provider)
      modifies this`providers
      ensures Contents() == Next(old(Contents()), Request.CreateProvider(newId, provider))
      ensures Consistent(old(Contents())) ==>
                PlainlyServed(old(Contents()), Contents(), Request.CreateProvider(newId, provider), None)
    {
      providers := providers[newId := provider];
    }

    method UpdateProvider(id: string, name: Option<string>, protocol: Option<string>, enabled: Option<bool>)
      returns (error: Option<Error>)
      modifies this`providers
      ensures Contents() == Next(old(Contents()), Request.UpdateProvider(id, name, protocol, enabled))
      ensures error == ErrorOf(Serve(old(Contents()), Request.UpdateProvider(id, name, protocol, enabled)))
      ensures Consistent(old(Contents())) ==>
                PlainlyServed(old(Contents()), Contents(), Request.UpdateProvider(id, name, protocol, enabled), error)
    {
      if Consistent(Contents()) { ServedInPlainTerms(Contents(), Request.UpdateProvider(id, name, protocol, enabled)); }
      if id !in providers {
        return Some(ProviderNotFound);
      }
      if name.Some? { providers := providers[id := providers[id].(name := name.value)]; }
      if protocol.Some? { providers := providers[id := providers[id].(protocol := protocol.value)]; }
      if enabled.Some? { providers := providers[id := providers[id].(enabled := enabled.value)]; }
      return None;
    }

    method CreateModel(newId: string, model: Model) returns (error: Option<Error>)
      modifies this`models
      ensures Contents() == Next(old(Contents()), Request.CreateModel(newId, model))
      ensures error == ErrorOf(Serve(old(Contents()), Request.CreateModel(newId, model)))
      ensures Consistent(old(Contents())) ==>
                PlainlyServed(old(Contents()), Contents(), Request.CreateModel(newId, model), error)
    {
      if Consistent(Contents()) { ServedInPlainTerms(Contents(), Request.CreateModel(newId, model)); }
      if model.providerId !in providers {
        return Some(ProviderNotFound);
      }
      models := models[newId := model];
      return None;
    }

    method UpdateModel(id: string, name: Option<string>, enabled: Option<bool>) returns (error: Option<Error>)
      modifies this`models
      ensures Contents() == Next(old(Contents()), Request.UpdateModel(id, name, enabled))
      ensures error == ErrorOf(Serve(old(Contents()), Request.UpdateModel(id, name, enabled)))
      ensures Consistent(old(Contents())) ==>
                PlainlyServed(old(Contents()), Contents(), Request.UpdateModel(id, name, enabled), error)
    {
      if Consistent(Contents()) { ServedInPlainTerms(Contents(), Request.UpdateModel(id, name, enabled)); }
      if id !in models {
        return Some(ModelNotFound);
      }
      if name.Some? { models := models[id := models[id].(name := name.value)]; }
      if enabled.Some? { models := models[id := models[id].(enabled := enabled.value)]; }
      return None;
    }

    method SetRoute(capability: string, modelId: string) returns (error: Option<Error>)
      modifies this`routes
      ensures Contents() == Next(old(Contents()), Request.SetRoute(capability, modelId))
      ensures error == ErrorOf(Serve(old(Contents()), Request.SetRoute(capability, modelId)))
      ensures Consistent(old(Contents())) ==>
                PlainlyServed(old(Contents()), Contents(), Request.SetRoute(capability, modelId), error)
    {
      if Consistent(Contents()) { ServedInPlainTerms(Contents(), Request.SetRoute(capability, modelId)); }
      if capability !in CAPABILITIES {
        return Some(InvalidRoute);
      }
      if modelId !in models {
        return Some(ModelNotFound);
      }
      var model := models[modelId];
      if model.modelType != capability {
        return Some(InvalidRoute);
      }
      if model.providerId !in providers {
        return Some(ProviderNotFound);
      }
      if !model.enabled || !providers[model.providerId].enabled {
        return Some(InvalidRoute);
      }
      var i := RouteAt(routes, capability);
      if i == |routes| {
        routes := routes + [Route(capability, modelId)];
      } else {
        routes := routes[i := routes[i].(modelId := modelId)];
      }
      return None;
    }
  }

  function ErrorOf(r: Reply): Option<Error> { if r.Done? then None else Some(r.error) }
}
